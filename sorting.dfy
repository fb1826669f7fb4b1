/**
 * `Array.prototype.sort` with a caller-supplied comparator, modelled by an
 * in-place insertion sort. A comparator returns a negative number, zero or a
 * positive number; `x` may precede `y` when `cmp(x, y) <= 0`.
 */
module Sorting {

  /**
   * On the elements of `s`, `cmp` behaves like a total preorder: of two
   * elements at least one may precede the other, and "may precede" is transitive.
   */
  ghost predicate ConsistentOn<T(!new)>(cmp: (T, T) -> int, s: seq<T>) {
    && (forall x, y {:trigger x in s, y in s} :: x in s && y in s && cmp(x, y) > 0 ==> cmp(y, x) <= 0)
    && (forall x, y, z {:trigger x in s, y in s, z in s} ::
          x in s && y in s && z in s && cmp(x, y) <= 0 && cmp(y, z) <= 0 ==> cmp(x, z) <= 0)
  }

  /** Every element may precede every later one. */
  ghost predicate SortedBy<T>(cmp: (T, T) -> int, s: seq<T>) {
    forall i, j :: 0 <= i < j < |s| ==> cmp(s[i], s[j]) <= 0
  }

  /** Consistency on some elements holds on any of them. */
  lemma ConsistentOnSubset<T(!new)>(cmp: (T, T) -> int, s: seq<T>, t: seq<T>)
    requires (forall x :: x in t ==> x in s) && ConsistentOn(cmp, s)
    ensures ConsistentOn(cmp, t)
  {
  }

  lemma InPermutation<T>(t: seq<T>, s: seq<T>, k: int)
    requires multiset(t) == multiset(s) && 0 <= k < |t|
    ensures t[k] in s
  {
    assert t[k] in multiset(t);
  }

  /** The elements of `s` equal to `x` or to `y`, in their order in `s`. */
  ghost function Keep<T>(s: seq<T>, x: T, y: T): (r: seq<T>)
    ensures |r| <= |s|
    ensures forall k :: 0 <= k < |r| ==> r[k] == x || r[k] == y
  {
    if s == [] then [] else (if s[0] == x || s[0] == y then [s[0]] else []) + Keep(s[1..], x, y)
  }

  /** Each of `x` and `y` may precede the other. */
  ghost predicate Tied<T>(cmp: (T, T) -> int, x: T, y: T) {
    cmp(x, y) <= 0 && cmp(y, x) <= 0
  }

  /**
   * A consistent comparator in the sense of `Array.prototype.sort` in
   * ECMAScript, on the elements of `s`: a total preorder where a negative
   * result flips to a positive one when the arguments are swapped. `Tied`
   * (both `<= 0`) is broader in general: it also covers pairs that each
   * compare negative against the other.
   */
  ghost predicate EcmaConsistent<T(!new)>(cmp: (T, T) -> int, s: seq<T>) {
    && ConsistentOn(cmp, s)
    && (forall x, y {:trigger x in s, y in s} :: x in s && y in s ==> (cmp(x, y) < 0 <==> cmp(y, x) > 0))
  }

  /** Under an ECMAScript-consistent comparator, tied values are exactly those that compare equal. */
  lemma TiedMeansEqualUnderEcma<T(!new)>(cmp: (T, T) -> int, s: seq<T>, x: T, y: T)
    requires EcmaConsistent(cmp, s) && x in s && y in s
    ensures Tied(cmp, x, y) <==> cmp(x, y) == 0 && cmp(y, x) == 0
  {
    assert cmp(x, y) < 0 <==> cmp(y, x) > 0;
    assert cmp(y, x) < 0 <==> cmp(x, y) > 0;
  }

  /** `r` keeps the relative order that tied values have in `s`: what a stable sort promises. */
  ghost predicate StableOrder<T(!new)>(cmp: (T, T) -> int, s: seq<T>, r: seq<T>) {
    forall x, y :: Tied(cmp, x, y) ==> Keep(r, x, y) == Keep(s, x, y)
  }

  lemma {:induction false} KeepConcat<T>(s: seq<T>, t: seq<T>, x: T, y: T)
    ensures Keep(s + t, x, y) == Keep(s, x, y) + Keep(t, x, y)
  {
    if s == [] {
      assert s + t == t;
    } else {
      assert (s + t)[1..] == s[1..] + t;
      KeepConcat(s[1..], t, x, y);
    }
  }

  /** Two values of which the first must follow the second are not both kept for a tied pair. */
  lemma KeepPairSwapped<T>(cmp: (T, T) -> int, u: T, v: T, x: T, y: T)
    requires cmp(u, v) > 0 && Tied(cmp, x, y)
    ensures Keep([u, v], x, y) == Keep([v, u], x, y)
  {
    assert [u, v][1..] == [v] && [v, u][1..] == [u];
    assert [u][1..] == [] && [v][1..] == [];
  }

  /** Swapping two neighbours of which the left must follow the right never reorders tied values. */
  lemma SwapKeepsTiedOrder<T>(cmp: (T, T) -> int, a: seq<T>, j: int, x: T, y: T)
    requires 0 < j < |a| && cmp(a[j - 1], a[j]) > 0 && Tied(cmp, x, y)
    ensures Keep(a[j - 1 := a[j]][j := a[j - 1]], x, y) == Keep(a, x, y)
  {
    var u, v := a[j - 1], a[j];
    var p, q := a[..j - 1], a[j + 1..];
    assert a == p + [u, v] + q;
    assert a[j - 1 := v][j := u] == p + [v, u] + q;
    KeepConcat(p + [u, v], q, x, y);
    KeepConcat(p, [u, v], x, y);
    KeepConcat(p + [v, u], q, x, y);
    KeepConcat(p, [v, u], x, y);
    KeepPairSwapped(cmp, u, v, x, y);
  }

  /** One swap of the insertion step keeps the input's order of tied values. */
  lemma SwapStable<T(!new)>(cmp: (T, T) -> int, a: seq<T>, j: int, s0: seq<T>)
    requires 0 < j < |a| && cmp(a[j - 1], a[j]) > 0
    requires StableOrder(cmp, s0, a)
    ensures StableOrder(cmp, s0, a[j - 1 := a[j]][j := a[j - 1]])
  {
    forall x, y | Tied(cmp, x, y)
      ensures Keep(a[j - 1 := a[j]][j := a[j - 1]], x, y) == Keep(s0, x, y)
    {
      SwapKeepsTiedOrder(cmp, a, j, x, y);
    }
  }

  /** The elements of `a` before `n` are in order. */
  ghost predicate SortedPrefix<T>(cmp: (T, T) -> int, a: seq<T>, n: int) {
    forall p, q :: 0 <= p < q < n && q < |a| ==> cmp(a[p], a[q]) <= 0
  }

  /** While `a[j]` moves left, `a[..i + 1]` is in order except at `j`. */
  ghost predicate InOrderExcept<T>(cmp: (T, T) -> int, a: seq<T>, i: int, j: int) {
    forall p, q :: 0 <= p < q <= i && q < |a| && p != j && q != j ==> cmp(a[p], a[q]) <= 0
  }

  /** The moving element may precede everything it has passed. */
  ghost predicate PrecedesRight<T>(cmp: (T, T) -> int, a: seq<T>, i: int, j: int) {
    forall q :: j < q <= i && 0 <= j && q < |a| ==> cmp(a[j], a[q]) <= 0
  }

  /** Swapping the moving element with its left neighbour, which must follow it, keeps both facts. */
  lemma SwapStep<T>(cmp: (T, T) -> int, a: seq<T>, i: int, j: int)
    requires 0 < j <= i < |a|
    requires InOrderExcept(cmp, a, i, j) && PrecedesRight(cmp, a, i, j)
    requires cmp(a[j], a[j - 1]) <= 0
    ensures InOrderExcept(cmp, a[j - 1 := a[j]][j := a[j - 1]], i, j - 1)
    ensures PrecedesRight(cmp, a[j - 1 := a[j]][j := a[j - 1]], i, j - 1)
  {
    var b := a[j - 1 := a[j]][j := a[j - 1]];
    forall p, q | 0 <= p < q <= i && p != j - 1 && q != j - 1 ensures cmp(b[p], b[q]) <= 0 {
      if q == j {
        assert b[q] == a[j - 1] && b[p] == a[p];
      } else if p == j {
        assert b[p] == a[j - 1] && b[q] == a[q];
      }
    }
  }

  /** Swapping two neighbours keeps the elements. */
  lemma SwapKeepsElements<T>(a: seq<T>, j: int)
    requires 0 < j < |a|
    ensures multiset(a[j - 1 := a[j]][j := a[j - 1]]) == multiset(a)
  {
    var b := a[j - 1 := a[j]][j := a[j - 1]];
    assert a == a[..j - 1] + [a[j - 1], a[j]] + a[j + 1..];
    assert b == a[..j - 1] + [a[j], a[j - 1]] + a[j + 1..];
  }

  /** The loop invariant of the insertion step survives one swap. */
  lemma SwapPreserves<T(!new)>(cmp: (T, T) -> int, a: seq<T>, i: int, j: int, s0: seq<T>, ok: bool)
    requires 0 < j <= i < |a|
    requires multiset(a) == multiset(s0)
    requires ok ==> ConsistentOn(cmp, s0) && InOrderExcept(cmp, a, i, j) && PrecedesRight(cmp, a, i, j)
    requires cmp(a[j - 1], a[j]) > 0
    ensures multiset(a[j - 1 := a[j]][j := a[j - 1]]) == multiset(s0)
    ensures ok ==> InOrderExcept(cmp, a[j - 1 := a[j]][j := a[j - 1]], i, j - 1)
    ensures ok ==> PrecedesRight(cmp, a[j - 1 := a[j]][j := a[j - 1]], i, j - 1)
  {
    SwapKeepsElements(a, j);
    if ok {
      InPermutation(a, s0, j - 1);
      InPermutation(a, s0, j);
      SwapStep(cmp, a, i, j);
    }
  }

  /** When the moving element has stopped, `a[..i + 1]` is in order. */
  lemma Settled<T(!new)>(cmp: (T, T) -> int, a: seq<T>, i: int, j: int, s0: seq<T>)
    requires 0 <= j <= i < |a|
    requires multiset(a) == multiset(s0) && ConsistentOn(cmp, s0)
    requires InOrderExcept(cmp, a, i, j) && PrecedesRight(cmp, a, i, j)
    requires j > 0 ==> cmp(a[j - 1], a[j]) <= 0
    ensures SortedPrefix(cmp, a, i + 1)
  {
    forall p, q | 0 <= p < q < i + 1 ensures cmp(a[p], a[q]) <= 0 {
      if q == j && p < j - 1 {
        InPermutation(a, s0, p);
        InPermutation(a, s0, j - 1);
        InPermutation(a, s0, j);
        assert cmp(a[p], a[j - 1]) <= 0;
      }
    }
  }

  /**
   * One step of the insertion sort: `a[i]` is moved left past every
   * element that must follow it.
   */
  method InsertAt<T(!new)>(a: array<T>, i: int, cmp: (T, T) -> int, ghost s0: seq<T>, ghost ok: bool)
    requires 0 < i < a.Length
    requires multiset(a[..]) == multiset(s0)
    requires ok ==> ConsistentOn(cmp, s0) && SortedPrefix(cmp, a[..], i)
    requires StableOrder(cmp, s0, a[..])
    modifies a
    ensures multiset(a[..]) == multiset(s0)
    ensures ok ==> SortedPrefix(cmp, a[..], i + 1)
    ensures StableOrder(cmp, s0, a[..])
  {
    var j := i;
    while j > 0 && cmp(a[j - 1], a[j]) > 0
      invariant 0 <= j <= i
      invariant multiset(a[..]) == multiset(s0)
      invariant ok ==> InOrderExcept(cmp, a[..], i, j) && PrecedesRight(cmp, a[..], i, j)
      invariant StableOrder(cmp, s0, a[..])
    {
      ghost var before := a[..];
      SwapPreserves(cmp, before, i, j, s0, ok);
      SwapStable(cmp, before, j, s0);
      a[j - 1], a[j] := a[j], a[j - 1];
      assert a[..] == before[j - 1 := before[j]][j := before[j - 1]];
      j := j - 1;
    }
    if ok {
      Settled(cmp, a[..], i, j, s0);
    }
  }

  /**
   * Sorts `a` in place. The result is always a permutation of the input
   * that keeps the input's order of tied values; it is sorted whenever the
   * comparator is consistent on the elements.
   */
  method InsertionSort<T(!new)>(a: array<T>, cmp: (T, T) -> int)
    modifies a
    ensures multiset(a[..]) == multiset(old(a[..]))
    ensures ConsistentOn(cmp, old(a[..])) ==> SortedBy(cmp, a[..])
    ensures StableOrder(cmp, old(a[..]), a[..])
  {
    ghost var s0 := a[..];
    ghost var ok := ConsistentOn(cmp, s0);
    var i := 1;
    while i < a.Length
      invariant a.Length == 0 || 1 <= i <= a.Length
      invariant multiset(a[..]) == multiset(s0)
      invariant ok ==> SortedPrefix(cmp, a[..], i)
      invariant StableOrder(cmp, s0, a[..])
    {
      InsertAt(a, i, cmp, s0, ok);
      i := i + 1;
    }
  }

  /**
   * Sorts a copy of `s`: a permutation that keeps the order of tied values,
   * sorted when `cmp` is consistent on `s`.
   */
  method SortSeq<T(!new)>(s: seq<T>, cmp: (T, T) -> int) returns (r: seq<T>)
    ensures multiset(r) == multiset(s)
    ensures ConsistentOn(cmp, s) ==> SortedBy(cmp, r)
    ensures StableOrder(cmp, s, r)
  {
    var a := new T[|s|](k requires 0 <= k < |s| => s[k]);
    assert a[..] == s;
    InsertionSort(a, cmp);
    r := a[..];
  }
}
