/**
 * Sequence and set helpers used across the model: ordered iteration over a
 * set of ints (as a std::set or the keys of a std::map iterate), erasing the
 * first match from a vector, and permutations of index ranges.
 */
module Collections {

  // ---------------------------------------------------------------------
  // Ordered iteration over a finite set of ints
  // ---------------------------------------------------------------------

  /** Some element of a non-empty set. */
  lemma Pick<T>(s: set<T>) returns (y: T)
    requires s != {}
    ensures y in s
  {
    y :| y in s;
  }

  lemma {:induction false} MinExists(s: set<int>)
    requires s != {}
    ensures exists m :: m in s && forall x :: x in s ==> m <= x
  {
    var y := Pick(s);
    if s == {y} {
      assert forall x :: x in s ==> x == y;
      assert y in s && forall x :: x in s ==> y <= x;
    } else {
      var rest := s - {y};
      MinExists(rest);
      var m :| m in rest && forall x :: x in rest ==> m <= x;
      var least := if y < m then y else m;
      forall x | x in s ensures least <= x {
        if x != y {
          assert x in rest;
        }
      }
      assert least in s && forall x :: x in s ==> least <= x;
    }
  }

  /** The least element of a non-empty set. */
  function Min(s: set<int>): (m: int)
    requires s != {}
    ensures m in s
    ensures forall x :: x in s ==> m <= x
  {
    MinExists(s);
    var m :| m in s && forall x :: x in s ==> m <= x;
    m
  }

  predicate StrictlyIncreasing(r: seq<int>)
  {
    forall i, j | 0 <= i < j < |r| :: r[i] < r[j]
  }

  /** The elements of `s` in ascending order. */
  function Sorted(s: set<int>): (r: seq<int>)
    ensures |r| == |s|
    ensures forall x :: x in r <==> x in s
    ensures forall i | 0 <= i < |r| :: r[i] in s
    ensures StrictlyIncreasing(r)
    decreases |s|
  {
    if s == {} then []
    else
      var m := Min(s);
      var rest := Sorted(s - {m});
      SortedCons(m, rest, s);
      [m] + rest
  }

  /** The elements of a sequence, as a set. */
  function Elements(s: seq<int>): set<int>
  {
    if s == [] then {} else Elements(s[..|s| - 1]) + {s[|s| - 1]}
  }

  lemma {:induction false} ElementsMembers(s: seq<int>)
    ensures forall x :: x in Elements(s) <==> x in s
  {
    if s != [] {
      ElementsMembers(s[..|s| - 1]);
      assert s == s[..|s| - 1] + [s[|s| - 1]];
    }
  }

  /** In an increasing sequence, an element is none of those before it. */
  lemma IncreasingFresh(r: seq<int>, k: nat)
    requires StrictlyIncreasing(r) && k < |r|
    ensures r[k] !in Elements(r[..k])
  {
    ElementsMembers(r[..k]);
    forall j | 0 <= j < k ensures r[..k][j] != r[k] {
      assert r[..k][j] == r[j];
    }
  }

  /** The elements of the ordering of a set are that set. */
  lemma SortedElements(s: set<int>)
    ensures Elements(Sorted(s)) == s
  {
    var r := Sorted(s);
    ElementsMembers(r);
    forall x ensures x in Elements(r) <==> x in s {
      assert x in r <==> x in s;
    }
  }

  /** Putting the least element of `s` before the ordered rest orders `s`. */
  lemma SortedCons(m: int, rest: seq<int>, s: set<int>)
    requires m in s && forall x :: x in s ==> m <= x
    requires |rest| == |s - {m}| && (forall x :: x in rest <==> x in s - {m}) && StrictlyIncreasing(rest)
    ensures |[m] + rest| == |s| && (forall x :: x in [m] + rest <==> x in s) && StrictlyIncreasing([m] + rest)
  {
    var r := [m] + rest;
    forall i, j | 0 <= i < j < |r| ensures r[i] < r[j] {
      assert r[j] == rest[j - 1];
      if i > 0 {
        assert r[i] == rest[i - 1];
      } else {
        assert rest[j - 1] in rest;
      }
    }
  }

  // ---------------------------------------------------------------------
  // Erasing the first occurrence from a sequence
  // ---------------------------------------------------------------------

  /** `s` with its first element equal to `x` erased; `s` itself if there is none. */
  function RemoveFirst<T(==)>(s: seq<T>, x: T): seq<T>
  {
    if s == [] then []
    else if s[0] == x then s[1..]
    else [s[0]] + RemoveFirst(s[1..], x)
  }

  /** Erasing an absent element changes nothing. */
  lemma {:induction false} RemoveFirstAbsent<T>(s: seq<T>, x: T)
    requires x !in s
    ensures RemoveFirst(s, x) == s
  {
    if s != [] {
      assert s == [s[0]] + s[1..];
      RemoveFirstAbsent(s[1..], x);
    }
  }

  /**
   * When `i` is the first position holding `x`, erasing `x` removes exactly
   * that position and keeps the rest in order.
   */
  lemma {:induction false} RemoveFirstAt<T>(s: seq<T>, x: T, i: nat)
    requires i < |s| && s[i] == x && x !in s[..i]
    ensures RemoveFirst(s, x) == s[..i] + s[i + 1..]
    ensures |RemoveFirst(s, x)| == |s| - 1
  {
    if i == 0 {
      assert s[..0] + s[1..] == s[1..];
    } else {
      var tail := s[1..];
      assert s[0] == s[..i][0];
      assert tail[..i - 1] == s[1..i];
      assert s[..i] == [s[0]] + tail[..i - 1];
      RemoveFirstAt(tail, x, i - 1);
      assert tail[i..] == s[i + 1..];
      assert RemoveFirst(s, x) == [s[0]] + (tail[..i - 1] + tail[i..]);
    }
  }

  /**
   * The first position of `x` in `s`, found by a linear scan, or -1 when `x`
   * does not occur.
   */
  method FirstIndex<T(==)>(s: seq<T>, x: T) returns (i: int)
    ensures -1 <= i < |s|
    ensures i == -1 <==> x !in s
    ensures i >= 0 ==> s[i] == x && x !in s[..i]
  {
    var k := 0;
    while k < |s|
      invariant 0 <= k <= |s|
      invariant x !in s[..k]
    {
      if s[k] == x {
        return k;
      }
      assert s[..k + 1] == s[..k] + [s[k]];
      k := k + 1;
    }
    assert s[..k] == s;
    i := -1;
  }

  /** A linear search: whether `x` occurs in `s`. */
  method Contains<T(==)>(s: seq<T>, x: T) returns (found: bool)
    ensures found <==> x in s
  {
    var k := 0;
    while k < |s|
      invariant 0 <= k <= |s|
      invariant x !in s[..k]
    {
      if s[k] == x {
        return true;
      }
      assert s[..k + 1] == s[..k] + [s[k]];
      k := k + 1;
    }
    assert s[..k] == s;
    found := false;
  }

  // ---------------------------------------------------------------------
  // Permutations of 0..k-1
  // ---------------------------------------------------------------------

  /** Every entry lies in 0..|p|-1 and no two entries are equal. */
  ghost predicate IsPermutation(p: seq<int>)
  {
    && (forall i | 0 <= i < |p| :: 0 <= p[i] < |p|)
    && (forall i, j | 0 <= i < j < |p| :: p[i] != p[j])
  }

  /** `r[i] == a[p[i]]` for every position of `p`. */
  function Permute<T>(a: seq<T>, p: seq<int>): (r: seq<T>)
    requires forall i | 0 <= i < |p| :: 0 <= p[i] < |a|
    ensures |r| == |p|
    ensures forall i | 0 <= i < |p| :: r[i] == a[p[i]]
  {
    seq(|p|, i requires 0 <= i < |p| => a[p[i]])
  }

  /** The set 0..k-1. */
  ghost function Range(k: nat): (r: set<int>)
    ensures forall j :: j in r <==> 0 <= j < k
    ensures |r| == k
  {
    if k == 0 then {} else Range(k - 1) + {k - 1}
  }

  /** The image under `p` of a set of positions. */
  ghost function Image(p: seq<int>, s: set<int>): set<int>
    requires forall i :: i in s ==> 0 <= i < |p|
  {
    set i | i in s :: p[i]
  }

  /** An injective map keeps the size of any set of positions. */
  lemma {:induction false} ImageCard(p: seq<int>, s: set<int>)
    requires forall i :: i in s ==> 0 <= i < |p|
    requires forall i, j | 0 <= i < j < |p| :: p[i] != p[j]
    ensures |Image(p, s)| == |s|
    decreases |s|
  {
    if s != {} {
      var x := Pick(s);
      ImageCard(p, s - {x});
      assert Image(p, s) == Image(p, s - {x}) + {p[x]};
      assert p[x] !in Image(p, s - {x});
    }
  }

  lemma SubsetSameCard<T>(a: set<T>, b: set<T>)
    requires a <= b && |a| == |b|
    ensures a == b
  {
    assert |b - a| == 0;
    assert b == a + (b - a);
  }

  lemma {:induction false} SubsetCard<T>(a: set<T>, b: set<T>)
    requires a <= b
    ensures |a| <= |b|
    decreases |b|
  {
    if a != {} {
      var x := Pick(a);
      SubsetCard(a - {x}, b - {x});
    }
  }

  /**
   * A permutation of 0..k-1 takes every value in 0..k-1: a value it missed
   * would leave |p| distinct entries for only |p| - 1 values.
   */
  lemma PermutationOnto(p: seq<int>)
    requires IsPermutation(p)
    ensures forall j | 0 <= j < |p| :: j in p
  {
    forall j | 0 <= j < |p| ensures j in p {
      if j !in p {
        var all := Range(|p|);
        var img := Image(p, all);
        ImageCard(p, all);
        forall v | v in img ensures v in all - {j} {
          var i :| i in all && p[i] == v;
        }
        SubsetCard(img, all - {j});
        assert false;
      }
    }
  }

  /** The positions of `s` holding `v`. */
  ghost function Positions<T>(s: seq<T>, v: T): set<int>
  {
    set i | 0 <= i < |s| && s[i] == v
  }

  /** The multiplicity of a value is the number of positions holding it. */
  lemma {:induction false} MultisetCount<T>(s: seq<T>, v: T)
    ensures multiset(s)[v] == |Positions(s, v)|
  {
    if s != [] {
      var n := |s| - 1;
      var init := s[..n];
      MultisetCount(init, v);
      assert s == init + [s[n]];
      if s[n] == v {
        assert Positions(s, v) == Positions(init, v) + {n};
      } else {
        assert Positions(s, v) == Positions(init, v);
      }
    }
  }

  /**
   * Rearranging the first |p| elements of `a` by a permutation `p` yields a
   * sequence with the same elements, each as often.
   */
  lemma PermutePreservesMultiset<T>(a: seq<T>, p: seq<int>)
    requires IsPermutation(p) && |p| <= |a|
    ensures multiset(Permute(a, p)) == multiset(a[..|p|])
  {
    var r := Permute(a, p);
    var b := a[..|p|];
    PermutationOnto(p);
    forall v ensures multiset(r)[v] == multiset(b)[v] {
      MultisetCount(r, v);
      MultisetCount(b, v);
      ImageCard(p, Positions(r, v));
      forall j | j in Positions(b, v) ensures j in Image(p, Positions(r, v)) {
        assert j in p;
        var i :| 0 <= i < |p| && p[i] == j;
        assert i in Positions(r, v);
      }
      assert Image(p, Positions(r, v)) == Positions(b, v);
    }
  }
}
