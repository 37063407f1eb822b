/**
 * `collections.Counter(items).most_common(n)`: the distinct items, most frequent
 * first, items of equal count in the order they were first seen (the Counter's
 * insertion order, which `most_common` keeps for ties), cut to the first `n`.
 */
module Counter {
  import opened Seqs

  /** Index of the first occurrence of `x`. */
  function FirstIndex<T(==)>(s: seq<T>, x: T): (i: nat)
    requires x in s
    ensures i < |s| && s[i] == x && x !in s[..i]
  {
    if s[0] == x then 0
    else
      var i := FirstIndex(s[1..], x);
      assert s[1..][..i] == s[1..i + 1];
      assert s[..i + 1] == [s[0]] + s[1..i + 1];
      i + 1
  }

  /** The first occurrence is the only position holding `x` with no `x` before it. */
  lemma FirstIndexUnique<T>(s: seq<T>, x: T, i: nat)
    requires i < |s| && s[i] == x && x !in s[..i]
    ensures FirstIndex(s, x) == i
  {
  }

  /** An item already in a prefix is first seen within that prefix. */
  lemma FirstIndexPrefix<T>(s: seq<T>, k: nat, x: T)
    requires k <= |s| && x in s[..k]
    ensures FirstIndex(s, x) == FirstIndex(s[..k], x)
  {
    var j := FirstIndex(s[..k], x);
    assert s[..j] == s[..k][..j];
    FirstIndexUnique(s, x, j);
  }

  /** The keys of a longer sequence: those of the shorter one, and the new last
      item when it is new. */
  lemma KeysSnoc<T>(s: seq<T>)
    requires s != []
    ensures var init := s[..|s| - 1];
      Keys(s) == Keys(init) + (if s[|s| - 1] in init then [] else [s[|s| - 1]])
  {
    var init := s[..|s| - 1];
    var u := Keys(init);
    if s[|s| - 1] in init {
      var j :| 0 <= j < |init| && init[j] == s[|s| - 1];
      assert init[j] in u;
    }
  }

  /** `x` is ranked ahead of `y` by `most_common` over `s`: a higher count, or the
      same count and an earlier first occurrence. */
  predicate Before<T(==)>(s: seq<T>, x: T, y: T)
    requires x in s && y in s
  {
    Count(s, x) > Count(s, y) || (Count(s, x) == Count(s, y) && FirstIndex(s, x) < FirstIndex(s, y))
  }

  predicate Members<T(==)>(s: seq<T>, r: seq<T>) {
    forall i :: 0 <= i < |r| ==> r[i] in s
  }

  /** `r` lists items of `s` in strictly decreasing rank. */
  predicate Ranked<T(==)>(s: seq<T>, r: seq<T>) {
    Members(s, r) && forall i, j :: 0 <= i < j < |r| ==> Before(s, r[i], r[j])
  }

  /** The distinct items of `s`, in order of first occurrence (the Counter's keys). */
  function Keys<T(==)>(s: seq<T>): (u: seq<T>)
    ensures Distinct(u)
    ensures Members(s, u) && Members(u, s)
  {
    if s == [] then []
    else
      var init := s[..|s| - 1];
      var u := Keys(init);
      assert forall i :: 0 <= i < |init| ==> init[i] == s[i];
      if s[|s| - 1] in u then u else u + [s[|s| - 1]]
  }

  /** The keys are listed in order of first occurrence in `s`. */
  lemma {:induction false} KeysOrder<T>(s: seq<T>)
    ensures forall i, j :: 0 <= i < j < |Keys(s)| ==> FirstIndex(s, Keys(s)[i]) < FirstIndex(s, Keys(s)[j])
  {
    if s != [] {
      var n := |s| - 1;
      var init := s[..n];
      var u := Keys(init);
      KeysOrder(init);
      KeysSnoc(s);
      assert init == s[..n];
      forall x | x in u ensures FirstIndex(s, x) == FirstIndex(init, x) < n {
        var k :| 0 <= k < |u| && u[k] == x;
        assert x in init;
        FirstIndexPrefix(s, n, x);
      }
      if s[n] !in init {
        FirstIndexUnique(s, s[n], n);
      }
      forall i, j | 0 <= i < j < |Keys(s)|
        ensures FirstIndex(s, Keys(s)[i]) < FirstIndex(s, Keys(s)[j])
      {
        assert Keys(s)[i] == u[i] && Keys(s)[i] in u;
        if j < |u| {
          assert Keys(s)[j] == u[j] && Keys(s)[j] in u;
        }
      }
    }
  }

  /** Put `x` in its place in the ranked sequence `r`. */
  function Insert<T(==)>(s: seq<T>, x: T, r: seq<T>): (q: seq<T>)
    requires x in s && Members(s, r)
    ensures multiset(q) == multiset(r) + multiset{x}
    ensures Members(s, q)
  {
    if r == [] then [x]
    else if Before(s, x, r[0]) then [x] + r
    else
      var q := [r[0]] + Insert(s, x, r[1..]);
      assert r == [r[0]] + r[1..];
      q
  }

  /** The items of `ps` in rank order. */
  function Rank<T(==)>(s: seq<T>, ps: seq<T>): (q: seq<T>)
    requires Members(s, ps)
    ensures multiset(q) == multiset(ps)
    ensures Members(s, q)
  {
    if ps == [] then []
    else
      assert ps == [ps[0]] + ps[1..];
      Insert(s, ps[0], Rank(s, ps[1..]))
  }

  /** Every distinct item of `s`, in rank order. */
  function Ranking<T(==)>(s: seq<T>): seq<T>
  {
    var keys := Keys(s);
    assert Members(s, keys);
    Rank(s, keys)
  }

  /** `Counter(s).most_common(n)`; a count of zero or less gives `[]`. */
  function MostCommon<T(==)>(s: seq<T>, n: int): seq<T>
  {
    var ranked := Ranking(s);
    if n <= 0 then [] else if n >= |ranked| then ranked else ranked[..n]
  }

  // ---------------------------------------------------------------------------
  // The ranking is a strict total order on the items of `s`.

  lemma BeforeIrreflexive<T>(s: seq<T>, x: T)
    requires x in s
    ensures !Before(s, x, x)
  {
  }

  lemma BeforeTransitive<T>(s: seq<T>, x: T, y: T, z: T)
    requires x in s && y in s && z in s
    requires Before(s, x, y) && Before(s, y, z)
    ensures Before(s, x, z)
  {
  }

  lemma BeforeTotal<T>(s: seq<T>, x: T, y: T)
    requires x in s && y in s && x != y
    ensures Before(s, x, y) || Before(s, y, x)
  {
    var i, j := FirstIndex(s, x), FirstIndex(s, y);
    assert s[i] == x && s[j] == y;
  }

  lemma {:induction false} InsertRanked<T>(s: seq<T>, x: T, r: seq<T>)
    requires x in s && Ranked(s, r) && x !in r
    ensures Ranked(s, Insert(s, x, r))
  {
    if r == [] {
    } else if Before(s, x, r[0]) {
      var q := [x] + r;
      forall i, j | 0 <= i < j < |q| ensures Before(s, q[i], q[j]) {
        if i == 0 && j > 1 {
          BeforeTransitive(s, x, r[0], r[j - 1]);
        }
      }
    } else {
      BeforeTotal(s, x, r[0]);
      var tail := Insert(s, x, r[1..]);
      assert Ranked(s, r[1..]) by {
        forall i, j | 0 <= i < j < |r[1..]| ensures Before(s, r[1..][i], r[1..][j]) {
          assert r[1..][i] == r[i + 1] && r[1..][j] == r[j + 1];
        }
      }
      assert x !in r[1..];
      InsertRanked(s, x, r[1..]);
      var q := [r[0]] + tail;
      forall i, j | 0 <= i < j < |q| ensures Before(s, q[i], q[j]) {
        if i == 0 {
          assert q[j] in multiset(tail);
          assert q[j] == x || q[j] in multiset(r[1..]);
          if q[j] != x {
            assert q[j] in r[1..];
            var k :| 0 <= k < |r[1..]| && r[1..][k] == q[j];
            assert r[k + 1] == q[j];
          }
        } else {
          assert q[i] == tail[i - 1] && q[j] == tail[j - 1];
        }
      }
    }
  }

  lemma {:induction false} RankRanked<T>(s: seq<T>, ps: seq<T>)
    requires Members(s, ps) && Distinct(ps)
    ensures Ranked(s, Rank(s, ps))
  {
    if ps != [] {
      assert Distinct(ps[1..]) by {
        forall i, j | 0 <= i < j < |ps[1..]| ensures ps[1..][i] != ps[1..][j] {
          assert ps[1..][i] == ps[i + 1] && ps[1..][j] == ps[j + 1];
        }
      }
      RankRanked(s, ps[1..]);
      var r := Rank(s, ps[1..]);
      assert ps[0] !in ps[1..] by {
        forall k | 0 <= k < |ps[1..]| ensures ps[1..][k] != ps[0] {
          assert ps[1..][k] == ps[k + 1];
        }
      }
      assert ps[0] !in multiset(r);
      InsertRanked(s, ps[0], r);
    }
  }

  /** A ranked sequence has no repetitions. */
  lemma RankedDistinct<T>(s: seq<T>, r: seq<T>)
    requires Ranked(s, r)
    ensures Distinct(r)
  {
    forall i, j | 0 <= i < j < |r| ensures r[i] != r[j] {
      if r[i] == r[j] {
        BeforeIrreflexive(s, r[i]);
      }
    }
  }

  /** The ranking holds every item of `s`, each once, in rank order. */
  lemma RankingSpec<T>(s: seq<T>)
    ensures Ranked(s, Ranking(s))
    ensures forall x :: x in Ranking(s) <==> x in s
    ensures |Ranking(s)| == |Keys(s)|
  {
    var keys := Keys(s);
    RankRanked(s, keys);
    var r := Rank(s, keys);
    assert |r| == |multiset(r)| == |multiset(keys)| == |keys|;
    forall x ensures x in r <==> x in s {
      assert x in r <==> x in multiset(r);
      assert x in keys <==> x in multiset(keys);
    }
  }

  /** `most_common(n)` returns `n` distinct items of `s` (all of them when there
      are fewer, none when `n` is not positive), most frequent first, with ties in
      first-occurrence order. */
  lemma MostCommonSpec<T>(s: seq<T>, n: int)
    ensures |MostCommon(s, n)| == (if n <= 0 then 0 else if n < |Keys(s)| then n else |Keys(s)|)
    ensures Ranked(s, MostCommon(s, n))
    ensures Distinct(MostCommon(s, n))
    ensures forall i, j :: 0 <= i < j < |MostCommon(s, n)| ==>
              Count(s, MostCommon(s, n)[i]) >= Count(s, MostCommon(s, n)[j])
  {
    RankingSpec(s);
    var r := MostCommon(s, n);
    assert Ranked(s, r);
    RankedDistinct(s, r);
  }

  /** Every item `most_common(n)` leaves out is ranked below every item it returns,
      and nothing is left out when `n` covers all the distinct items. */
  lemma MostCommonTop<T>(s: seq<T>, n: int)
    ensures forall x, i :: x in s && x !in MostCommon(s, n) && 0 <= i < |MostCommon(s, n)| ==>
              Before(s, MostCommon(s, n)[i], x)
    ensures n >= |Keys(s)| ==> forall x :: x in s ==> x in MostCommon(s, n)
  {
    var ranked := Ranking(s);
    RankingSpec(s);
    var r := MostCommon(s, n);
    forall x, i | x in s && x !in r && 0 <= i < |r| ensures Before(s, r[i], x) {
      var j :| 0 <= j < |ranked| && ranked[j] == x;
      assert forall k :: 0 <= k < |r| ==> r[k] == ranked[k];
      assert j >= |r|;
    }
  }

  /** An item seen twice outranks one seen once, whichever comes first:
      `Counter([x, y, x]).most_common(1)` is `[(x, 2)]`. */
  lemma MostCommonRepeated<T>(x: T, y: T)
    requires x != y
    ensures MostCommon([x, y, x], 1) == [x]
  {
    var s := [x, y, x];
    assert s[..1] == [x] && s[..2] == [x, y] && s[..2][..1] == [x];
    assert Keys(s[..1]) == [x];
    assert Keys(s[..2]) == [x, y];
    assert Keys(s) == [x, y];
    MostCommonSpec(s, 1);
    MostCommonTop(s, 1);
    assert multiset(s)[x] == 2 && multiset(s)[y] == 1;
  }

  /** Between two items seen once each, the one seen first is ranked first:
      `Counter([x, y]).most_common(1)` is `[(x, 1)]`. */
  lemma MostCommonTie<T>(x: T, y: T)
    requires x != y
    ensures MostCommon([x, y], 1) == [x]
  {
    var t := [x, y];
    assert t[..1] == [x];
    assert Keys(t[..1]) == [x];
    assert Keys(t) == [x, y];
    MostCommonSpec(t, 1);
    MostCommonTop(t, 1);
    assert FirstIndex(t, x) == 0 && FirstIndex(t, y) == 1;
    assert multiset(t)[x] == 1 && multiset(t)[y] == 1;
  }
}
