/**
 * The sidebar comparator (`useSidebarDataCompare`). Groups and items are
 * compared through the fields the comparator reads: a numeric `order`, an
 * optional `link` (items have one, groups do not) and an optional `title`.
 * The locale-aware `String.prototype.localeCompare` under the active locale
 * is the parameter `lc`.
 */
module Ordering {
  import opened Wrappers
  import opened Sorting

  datatype Entry = Entry(order: int, link: Option<string>, title: Option<string>)

  /** JavaScript truthiness of an optional string: present and non-empty. */
  predicate Truthy(s: Option<string>) {
    s.Some? && s.value != ""
  }

  /** `s || ''`. */
  function OrEmpty(s: Option<string>): string {
    if Truthy(s) then s.value else ""
  }

  /** The number of `/` characters in `s`. */
  function SlashCount(s: string): (c: nat)
    ensures c == multiset(s)['/']
  {
    if s == [] then 0
    else
      assert s == [s[0]] + s[1..];
      (if s[0] == '/' then 1 else 0) + SlashCount(s[1..])
  }

  /** `link.split('/').length`: one more than the number of slashes. */
  function SegmentCount(link: string): (n: nat)
    ensures n == multiset(link)['/'] + 1
    ensures n == 1 <==> '/' !in link
  {
    SlashCount(link) + 1
  }

  /**
   * The second step of the comparator: the difference in slash counts when
   * `a` has a truthy link and `b` has one; 0 otherwise.
   */
  function DepthStep(a: Entry, b: Entry): (d: int)
    ensures Truthy(a.link) && b.link.Some? ==> d == multiset(a.link.value)['/'] as int - multiset(b.link.value)['/'] as int
    ensures !(Truthy(a.link) && b.link.Some?) ==> d == 0
  {
    if Truthy(a.link) && b.link.Some? then SegmentCount(a.link.value) - SegmentCount(b.link.value) else 0
  }

  /**
   * The comparator as written: `a.order - b.order`, or else the depth step,
   * or else, when `a` has a title, `lc(a.title, b.title || '')`, and `-1`
   * when it has none.
   */
  function Compare(lc: (string, string) -> int, a: Entry, b: Entry): (r: int)
    ensures a.order < b.order ==> r < 0
    ensures a.order > b.order ==> r > 0
    ensures a.order == b.order && DepthStep(a, b) < 0 ==> r < 0
    ensures a.order == b.order && DepthStep(a, b) > 0 ==> r > 0
    ensures a.order == b.order && DepthStep(a, b) == 0 && !Truthy(a.title) ==> r == -1
    ensures a.order == b.order && DepthStep(a, b) == 0 && Truthy(a.title) ==> r == lc(a.title.value, OrEmpty(b.title))
  {
    if a.order - b.order != 0 then a.order - b.order
    else if DepthStep(a, b) != 0 then DepthStep(a, b)
    else if Truthy(a.title) then lc(a.title.value, OrEmpty(b.title))
    else -1
  }

  /** The comparator as a function value, as handed to `Array.prototype.sort`. */
  function CompareFn(lc: (string, string) -> int): (Entry, Entry) -> int {
    (a, b) => Compare(lc, a, b)
  }

  /**
   * `lc` orders strings as a collation does: swapping the arguments flips
   * the sign, and "not after" is transitive.
   */
  ghost predicate CollationOrder(lc: (string, string) -> int) {
    && (forall s, t :: lc(s, t) > 0 <==> lc(t, s) < 0)
    && (forall s, t, u :: lc(s, t) <= 0 && lc(t, u) <= 0 ==> lc(s, u) <= 0)
  }

  /** Entries that are all links or all without one. */
  ghost predicate SameLinkKind(s: seq<Entry>) {
    forall x, y :: x in s && y in s ==> Truthy(x.link) == Truthy(y.link)
  }

  lemma DepthAntisymmetric(a: Entry, b: Entry)
    requires Truthy(a.link) == Truthy(b.link)
    ensures DepthStep(a, b) == -DepthStep(b, a)
  {
  }

  // ---------------------------------------------------------------------
  // The tie-break on titles, as written

  /** An untitled entry compared with itself comes out `-1`, not `0`. */
  lemma CompareUntitledNotReflexive(lc: (string, string) -> int, x: Entry)
    requires !Truthy(x.title)
    ensures Compare(lc, x, x) == -1
  {
  }

  /** Two untitled entries that tie on order and depth each come before the other. */
  lemma CompareUntitledNotAntisymmetric(lc: (string, string) -> int, a: Entry, b: Entry)
    requires !Truthy(a.title) && !Truthy(b.title)
    requires a.order == b.order && Truthy(a.link) == Truthy(b.link)
    requires DepthStep(a, b) == 0
    ensures Compare(lc, a, b) == -1 && Compare(lc, b, a) == -1
  {
    DepthAntisymmetric(a, b);
  }

  /** On a tie, an untitled `a` is placed before any `b`, titled or not. */
  lemma CompareUntitledFirst(lc: (string, string) -> int, a: Entry, b: Entry)
    requires !Truthy(a.title) && a.order == b.order && DepthStep(a, b) == 0
    ensures Compare(lc, a, b) < 0
  {
  }

  /** Among titled entries of one kind, the comparator is a total preorder. */
  lemma {:induction false} CompareConsistentWhenTitled(lc: (string, string) -> int, s: seq<Entry>)
    requires CollationOrder(lc) && SameLinkKind(s)
    requires forall x :: x in s ==> Truthy(x.title)
    ensures ConsistentOn(CompareFn(lc), s)
  {
    var cmp := CompareFn(lc);
    forall x, y | x in s && y in s && cmp(x, y) > 0 ensures cmp(y, x) <= 0 {
      DepthAntisymmetric(x, y);
    }
    forall x, y, z | x in s && y in s && z in s && cmp(x, y) <= 0 && cmp(y, z) <= 0
      ensures cmp(x, z) <= 0
    {
      DepthAntisymmetric(x, y);
      DepthAntisymmetric(y, z);
      DepthAntisymmetric(x, z);
      assert OrEmpty(y.title) == y.title.value && OrEmpty(z.title) == z.title.value;
    }
  }

  /**
   * When the collation puts the empty string before every other string, the
   * comparator is a total preorder on entries of one kind, titled or not:
   * untitled entries then go first and tie with each other.
   */
  lemma {:induction false} CompareConsistentWhenEmptyFirst(lc: (string, string) -> int, s: seq<Entry>)
    requires CollationOrder(lc) && SameLinkKind(s)
    requires forall t :: t != "" ==> lc(t, "") > 0
    ensures ConsistentOn(CompareFn(lc), s)
  {
    var cmp := CompareFn(lc);
    forall x, y | x in s && y in s && cmp(x, y) > 0 ensures cmp(y, x) <= 0 {
      DepthAntisymmetric(x, y);
    }
    forall x, y, z | x in s && y in s && z in s && cmp(x, y) <= 0 && cmp(y, z) <= 0
      ensures cmp(x, z) <= 0
    {
      DepthAntisymmetric(x, y);
      DepthAntisymmetric(y, z);
      DepthAntisymmetric(x, z);
    }
  }

  /** When no two entries share an order, only the order step decides. */
  lemma {:induction false} CompareConsistentOnDistinctOrders(lc: (string, string) -> int, s: seq<Entry>)
    requires CollationOrder(lc)
    requires forall x, y :: x in s && y in s && x != y ==> x.order != y.order
    ensures ConsistentOn(CompareFn(lc), s)
  {
    var cmp := CompareFn(lc);
    forall x | x in s ensures cmp(x, x) <= 0 {
      if Truthy(x.title) {
        assert lc(x.title.value, x.title.value) == 0;
      }
    }
  }

  // ---------------------------------------------------------------------
  // The tie-break on titles, as the comment on it describes

  /** Step three of the corrected comparator: titled entries first, untitled ones equal to each other. */
  function TitleStep(lc: (string, string) -> int, a: Option<string>, b: Option<string>): int {
    if Truthy(a) && Truthy(b) then lc(a.value, b.value)
    else if Truthy(a) then -1
    else if Truthy(b) then 1
    else 0
  }

  /**
   * The comparator with untitled entries put at the end, as the comment on
   * the title step says: the same first two steps, then titled entries by
   * `lc`, titled before untitled, and untitled entries tied.
   */
  function CompareIntended(lc: (string, string) -> int, a: Entry, b: Entry): (r: int)
    ensures a.order < b.order ==> r < 0
    ensures a.order > b.order ==> r > 0
    ensures a.order == b.order && DepthStep(a, b) < 0 ==> r < 0
    ensures a.order == b.order && DepthStep(a, b) > 0 ==> r > 0
    ensures a.order == b.order && DepthStep(a, b) == 0 && Truthy(a.title) && !Truthy(b.title) ==> r < 0
    ensures a.order == b.order && DepthStep(a, b) == 0 && !Truthy(a.title) && Truthy(b.title) ==> r > 0
    ensures a.order == b.order && DepthStep(a, b) == 0 && !Truthy(a.title) && !Truthy(b.title) ==> r == 0
  {
    if a.order - b.order != 0 then a.order - b.order
    else if DepthStep(a, b) != 0 then DepthStep(a, b)
    else TitleStep(lc, a.title, b.title)
  }

  function IntendedFn(lc: (string, string) -> int): (Entry, Entry) -> int {
    (a, b) => CompareIntended(lc, a, b)
  }

  /** Where both entries have titles, the correction changes nothing. */
  lemma IntendedAgreesWhenTitled(lc: (string, string) -> int, a: Entry, b: Entry)
    requires Truthy(a.title) && Truthy(b.title)
    ensures CompareIntended(lc, a, b) == Compare(lc, a, b)
  {
  }

  /** The corrected comparator is reflexive and antisymmetric in sign. */
  lemma IntendedAntisymmetric(lc: (string, string) -> int, a: Entry, b: Entry)
    requires CollationOrder(lc) && Truthy(a.link) == Truthy(b.link)
    ensures CompareIntended(lc, a, a) == 0
    ensures CompareIntended(lc, a, b) < 0 <==> CompareIntended(lc, b, a) > 0
    ensures CompareIntended(lc, a, b) == 0 <==> CompareIntended(lc, b, a) == 0
  {
    DepthAntisymmetric(a, b);
    if Truthy(a.title) {
      assert lc(a.title.value, a.title.value) == 0;
    }
  }

  /** "Not after" under the corrected comparator is transitive. */
  lemma IntendedTransitive(lc: (string, string) -> int, a: Entry, b: Entry, c: Entry)
    requires CollationOrder(lc) && Truthy(a.link) == Truthy(b.link) == Truthy(c.link)
    requires CompareIntended(lc, a, b) <= 0 && CompareIntended(lc, b, c) <= 0
    ensures CompareIntended(lc, a, c) <= 0
  {
    DepthAntisymmetric(a, b);
    DepthAntisymmetric(b, c);
    DepthAntisymmetric(a, c);
  }

  /**
   * The comparator as written is not consistent in ECMAScript's sense on two
   * untitled entries that tie on order and depth, although the model counts
   * them as tied: the order a sort gives them is left to the engine.
   */
  lemma CompareNotEcmaConsistent(lc: (string, string) -> int, a: Entry, b: Entry)
    requires !Truthy(a.title) && !Truthy(b.title)
    requires a.order == b.order && Truthy(a.link) == Truthy(b.link)
    requires DepthStep(a, b) == 0
    ensures Tied(CompareFn(lc), a, b)
    ensures !EcmaConsistent(CompareFn(lc), [a, b])
  {
    CompareUntitledNotAntisymmetric(lc, a, b);
    assert a in [a, b] && b in [a, b];
  }

  /** Among entries of one kind, titled or not, the corrected comparator is a total preorder. */
  lemma {:induction false} IntendedConsistent(lc: (string, string) -> int, s: seq<Entry>)
    requires CollationOrder(lc) && SameLinkKind(s)
    ensures ConsistentOn(IntendedFn(lc), s)
  {
    var cmp := IntendedFn(lc);
    forall x, y | x in s && y in s ensures cmp(x, y) > 0 ==> cmp(y, x) <= 0 {
      IntendedAntisymmetric(lc, x, y);
    }
    forall x, y, z | x in s && y in s && z in s && cmp(x, y) <= 0 && cmp(y, z) <= 0
      ensures cmp(x, z) <= 0
    {
      IntendedTransitive(lc, x, y, z);
    }
  }

  /** The corrected comparator is consistent in ECMAScript's sense on entries of one kind. */
  lemma IntendedEcmaConsistent(lc: (string, string) -> int, s: seq<Entry>)
    requires CollationOrder(lc) && SameLinkKind(s)
    ensures EcmaConsistent(IntendedFn(lc), s)
  {
    IntendedConsistent(lc, s);
    forall x, y | x in s && y in s ensures IntendedFn(lc)(x, y) < 0 <==> IntendedFn(lc)(y, x) > 0 {
      IntendedAntisymmetric(lc, x, y);
    }
  }
}
