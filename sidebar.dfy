/**
 * The sidebar data of a documentation site, derived from its routes
 * (`useFullSidebarData`) and sliced for the current location
 * (`useSidebarData`).
 */
module SidebarData {
  import opened Wrappers
  import opened Tables
  import opened Paths
  import opened Ordering
  import opened Sorting

  /** The table key shared by every group without a title. */
  const DefaultGroupStubTitle: string := "$default-group-title"

  /** The `group` field of a page's frontmatter: absent, a plain title, or an object. */
  datatype GroupField =
    | NoGroup
    | GroupName(name: string)
    | GroupObject(title: Option<string>, order: Option<int>)

  /** The frontmatter fields the sidebar reads; the whole record is carried into each item. */
  datatype Frontmatter = Frontmatter(title: Option<string>, order: Option<int>, group: GroupField)

  /** A document route: its path (without a leading slash) and, when it has one, its page metadata. */
  datatype Route = Route(path: string, meta: Option<Frontmatter>)

  datatype Item = Item(title: Option<string>, link: string, order: int, frontmatter: Frontmatter)

  datatype Group = Group(title: Option<string>, order: int, children: seq<Item>)

  /** Parent path to ordered groups. */
  type Sidebar = map<string, seq<Group>>

  // ---------------------------------------------------------------------
  // One route

  /** The group title: the object's `title`, the plain value, or undefined. */
  function GroupTitle(g: GroupField): (t: Option<string>)
    ensures g.GroupObject? ==> t == g.title
    ensures g.GroupName? ==> t == Some(g.name)
    ensures g.NoGroup? ==> t.None?
  {
    match g
    case NoGroup => None
    case GroupName(name) => Some(name)
    case GroupObject(title, _) => title
  }

  /** The group order: the object's `order`, defaulting to 0; 0 for a plain value. */
  function GroupOrder(g: GroupField): (o: int)
    ensures g.GroupObject? && g.order.Some? ==> o == g.order.value
    ensures !(g.GroupObject? && g.order.Some?) ==> o == 0
  {
    match g
    case GroupObject(_, order) => order.GetOr(0)
    case _ => 0
  }

  /** `title || DEFAULT_GROUP_STUB_TITLE`. */
  function TitleKey(title: Option<string>): (k: string)
    ensures Truthy(title) ==> k == title.value
    ensures !Truthy(title) ==> k == DefaultGroupStubTitle
  {
    if Truthy(title) then title.value else DefaultGroupStubTitle
  }

  /** The sidebar item of a route: its link is the uncleared path with a leading slash. */
  function ItemOf(path: string, fm: Frontmatter): (it: Item)
    ensures it.link == "/" + path && it.frontmatter == fm && it.title == fm.title
    ensures fm.order.None? ==> it.order == 0
    ensures fm.order.Some? ==> it.order == fm.order.value
  {
    Item(fm.title, "/" + path, fm.order.GetOr(0), fm)
  }

  /** Index routes (empty cleared path) and routes without metadata are skipped. */
  predicate Qualifies(r: Route, locale: Locale) {
    LocaleClearPath(r.path, locale) != "" && r.meta.Some?
  }

  /**
   * Without a base, a route is skipped when its path is empty; under base
   * `/L`, a route `L` + `rest` is skipped when `rest` is empty or `/`, as
   * the locale's own index page is. Routes without metadata are always skipped.
   */
  lemma QualifyingRoutes(id: string, path: string, name: string, rest: string, meta: Option<Frontmatter>)
    ensures Qualifies(Route(path, meta), Locale(id, None)) <==> path != "" && meta.Some?
    ensures Qualifies(Route(name + rest, meta), Locale(id, Some("/" + name))) <==>
      StripLeadingSlash(rest) != "" && meta.Some?
  {
    ClearPathOfLocalePrefixed(id, '/', name, rest);
    assert "/" + name == ['/'] + name;
  }

  // ---------------------------------------------------------------------
  // The fold over the routes

  /** Parent path to (group key to group), both in insertion order. */
  type GroupTable = Table<Table<Group>>

  function GroupAt(data: GroupTable, pp: string, key: string): Option<Group> {
    match Find(data, pp)
    case None => None
    case Some(bucket) => Find(bucket, key)
  }

  /**
   * The group a route with group title `title` and group order `order` leaves
   * behind when the group found under its key was `prev`: the route's title;
   * the order found when that is non-zero, else the route's; and the item
   * appended to the children found.
   */
  function Merged(prev: Option<Group>, title: Option<string>, order: int, item: Item): (g: Group)
    ensures prev.None? ==> g == Group(title, order, [item])
    ensures prev.Some? ==> g.title == title && g.children == prev.value.children + [item]
    ensures prev.Some? ==> g.order == FirstNonZero([prev.value.order, order])
  {
    Group(title,
          if prev.Some? && prev.value.order != 0 then prev.value.order else order,
          (if prev.Some? then prev.value.children else []) + [item])
  }

  /**
   * The reducer: a qualifying route replaces the group with its key under
   * its parent path (`ret[parentPath] ??= {}; ret[parentPath][titleKey] = ...`).
   */
  function AddRoute(data: GroupTable, r: Route, locale: Locale): (out: GroupTable)
    ensures !Qualifies(r, locale) ==> out == data
    ensures Qualifies(r, locale) ==> Find(out, RouteParentPath(r.path)).Some?
    ensures forall pp :: pp != RouteParentPath(r.path) ==> Find(out, pp) == Find(data, pp)
    ensures |data| <= |out| <= |data| + 1
  {
    if !Qualifies(r, locale) then data
    else
      var fm := r.meta.value;
      var pp := RouteParentPath(r.path);
      var title := GroupTitle(fm.group);
      var key := TitleKey(title);
      var bucket := Find(data, pp).GetOr([]);
      Put(data, pp, Put(bucket, key, Merged(Find(bucket, key), title, GroupOrder(fm.group), ItemOf(r.path, fm))))
  }

  /** One route changes only the group it belongs to. */
  lemma AddRouteGroupAt(data: GroupTable, r: Route, locale: Locale, pp: string, key: string)
    ensures GroupAt(AddRoute(data, r, locale), pp, key) ==
      if InGroup(r, locale, pp, key) then
        var fm := r.meta.value;
        Some(Merged(GroupAt(data, pp, key), GroupTitle(fm.group), GroupOrder(fm.group), ItemOf(r.path, fm)))
      else GroupAt(data, pp, key)
  {
    if Qualifies(r, locale) {
      var fm := r.meta.value;
      var pp' := RouteParentPath(r.path);
      var key' := TitleKey(GroupTitle(fm.group));
      var bucket := Find(data, pp').GetOr([]);
      if pp == pp' {
        assert GroupAt(data, pp, key) == Find(bucket, key);
      }
    }
  }

  /** `Object.values(routes).reduce(AddRoute, {})`. */
  function GroupRoutes(routes: seq<Route>, locale: Locale): (data: GroupTable)
    ensures |data| <= |routes|
  {
    if routes == [] then []
    else AddRoute(GroupRoutes(routes[..|routes| - 1], locale), routes[|routes| - 1], locale)
  }

  /** The reduce loop: the accumulator is replaced by the reducer's result, one route at a time. */
  method CollectGroups(routes: seq<Route>, locale: Locale) returns (data: GroupTable)
    ensures data == GroupRoutes(routes, locale)
  {
    data := [];
    var i := 0;
    while i < |routes|
      invariant 0 <= i <= |routes|
      invariant data == GroupRoutes(routes[..i], locale)
    {
      assert routes[..i + 1][..i] == routes[..i];
      assert GroupRoutes(routes[..i + 1], locale) == AddRoute(data, routes[i], locale);
      data := AddRoute(data, routes[i], locale);
      i := i + 1;
    }
    assert routes[..|routes|] == routes;
  }

  // ---------------------------------------------------------------------
  // What the fold computes, defined independently by filtering

  /** Route `r` lands in the group with key `key` under parent path `pp`. */
  predicate InGroup(r: Route, locale: Locale, pp: string, key: string) {
    Qualifies(r, locale) && RouteParentPath(r.path) == pp && TitleKey(GroupTitle(r.meta.value.group)) == key
  }

  /** The paths and frontmatter of the routes of one group, in route order. */
  function Members(routes: seq<Route>, locale: Locale, pp: string, key: string): seq<(string, Frontmatter)> {
    if routes == [] then []
    else
      var r := routes[|routes| - 1];
      var init := Members(routes[..|routes| - 1], locale, pp, key);
      if InGroup(r, locale, pp, key) then init + [(r.path, r.meta.value)] else init
  }

  /** Every number of `s` before index `i` is 0. */
  predicate ZeroBefore(s: seq<int>, i: int) {
    forall j :: 0 <= j < i && j < |s| ==> s[j] == 0
  }

  /** The first non-zero number of `s`, or 0. */
  function {:induction false} FirstNonZero(s: seq<int>): (r: int)
    ensures r == 0 <==> ZeroBefore(s, |s|)
    ensures forall i :: 0 <= i < |s| && s[i] != 0 && ZeroBefore(s, i) ==> r == s[i]
  {
    if s == [] then 0
    else if s[0] != 0 then s[0]
    else
      var r := FirstNonZero(s[1..]);
      assert forall i :: 0 < i <= |s| ==> (ZeroBefore(s, i) <==> ZeroBefore(s[1..], i - 1));
      r
  }

  lemma {:induction false} FirstNonZeroAppend(s: seq<int>, x: int)
    ensures FirstNonZero(s + [x]) == if FirstNonZero(s) != 0 then FirstNonZero(s) else x
  {
    if s != [] {
      assert (s + [x])[1..] == s[1..] + [x];
      FirstNonZeroAppend(s[1..], x);
    }
  }

  function GroupOrders(m: seq<(string, Frontmatter)>): (os: seq<int>)
    ensures |os| == |m|
    ensures forall i :: 0 <= i < |m| ==> os[i] == GroupOrder(m[i].1.group)
  {
    seq(|m|, i requires 0 <= i < |m| => GroupOrder(m[i].1.group))
  }

  function Items(m: seq<(string, Frontmatter)>): (its: seq<Item>)
    ensures |its| == |m|
    ensures forall i :: 0 <= i < |m| ==> its[i] == ItemOf(m[i].0, m[i].1)
  {
    seq(|m|, i requires 0 <= i < |m| => ItemOf(m[i].0, m[i].1))
  }

  /**
   * The group one key under one parent path should hold: absent when no
   * route belongs to it; otherwise titled by its last route, ordered by the
   * first non-zero group order among its routes, and holding one item per
   * route in route order.
   */
  function ExpectedGroup(routes: seq<Route>, locale: Locale, pp: string, key: string): Option<Group> {
    GroupOfMembers(Members(routes, locale, pp, key))
  }

  /** The group made of the routes `m`, in the sense of `ExpectedGroup`. */
  function GroupOfMembers(m: seq<(string, Frontmatter)>): Option<Group> {
    if m == [] then None
    else Some(Group(GroupTitle(m[|m| - 1].1.group), FirstNonZero(GroupOrders(m)), Items(m)))
  }

  /** Merging one more route into the group of `m0` gives the group of `m0` and that route. */
  lemma MergeMember(m0: seq<(string, Frontmatter)>, path: string, fm: Frontmatter)
    ensures Some(Merged(GroupOfMembers(m0), GroupTitle(fm.group), GroupOrder(fm.group), ItemOf(path, fm)))
         == GroupOfMembers(m0 + [(path, fm)])
  {
    var m := m0 + [(path, fm)];
    assert GroupOrders(m) == GroupOrders(m0) + [GroupOrder(fm.group)];
    assert Items(m) == Items(m0) + [ItemOf(path, fm)];
    FirstNonZeroAppend(GroupOrders(m0), GroupOrder(fm.group));
  }

  /** The fold builds, for every parent path and key, exactly the expected group. */
  lemma {:induction false} GroupRoutesMatchesExpected(routes: seq<Route>, locale: Locale, pp: string, key: string)
    ensures GroupAt(GroupRoutes(routes, locale), pp, key) == ExpectedGroup(routes, locale, pp, key)
  {
    if routes != [] {
      var init := routes[..|routes| - 1];
      var r := routes[|routes| - 1];
      GroupRoutesMatchesExpected(init, locale, pp, key);
      AddRouteGroupAt(GroupRoutes(init, locale), r, locale, pp, key);
      if InGroup(r, locale, pp, key) {
        var fm := r.meta.value;
        var m0 := Members(init, locale, pp, key);
        assert Members(routes, locale, pp, key) == m0 + [(r.path, fm)];
        MergeMember(m0, r.path, fm);
      } else {
        assert Members(routes, locale, pp, key) == Members(init, locale, pp, key);
      }
    }
  }

  /** One route adds at most its own parent path to the table. */
  lemma AddRouteBuckets(data: GroupTable, r: Route, locale: Locale, pp: string)
    ensures HasKey(AddRoute(data, r, locale), pp) <==>
      HasKey(data, pp) || (Qualifies(r, locale) && RouteParentPath(r.path) == pp)
  {
    var out := AddRoute(data, r, locale);
    assert HasKey(out, pp) <==> Find(out, pp).Some?;
    assert HasKey(data, pp) <==> Find(data, pp).Some?;
  }

  /** Some qualifying route has the parent path `pp`. */
  ghost predicate HasParentRoute(routes: seq<Route>, locale: Locale, pp: string) {
    exists i :: 0 <= i < |routes| && Qualifies(routes[i], locale) && RouteParentPath(routes[i].path) == pp
  }

  /** Some element of `s` satisfies `f`: the last one, or one of `init`, the elements before it. */
  lemma ExistsSnoc<T>(s: seq<T>, init: seq<T>, f: T -> bool)
    requires s != [] && init == s[..|s| - 1]
    ensures (exists i :: 0 <= i < |s| && f(s[i])) <==>
      (exists i :: 0 <= i < |init| && f(init[i])) || f(s[|s| - 1])
  {
    assert forall i :: 0 <= i < |init| ==> init[i] == s[i];
  }

  lemma HasParentRouteSnoc(routes: seq<Route>, locale: Locale, pp: string)
    requires routes != []
    ensures HasParentRoute(routes, locale, pp) <==>
      HasParentRoute(routes[..|routes| - 1], locale, pp)
      || (Qualifies(routes[|routes| - 1], locale) && RouteParentPath(routes[|routes| - 1].path) == pp)
  {
    ExistsSnoc(routes, routes[..|routes| - 1], r => Qualifies(r, locale) && RouteParentPath(r.path) == pp);
  }

  /** There is a bucket for a parent path exactly when some qualifying route has that parent. */
  lemma {:induction false} GroupRoutesBuckets(routes: seq<Route>, locale: Locale, pp: string)
    ensures HasKey(GroupRoutes(routes, locale), pp) <==> HasParentRoute(routes, locale, pp)
  {
    if routes != [] {
      var init := routes[..|routes| - 1];
      GroupRoutesBuckets(init, locale, pp);
      AddRouteBuckets(GroupRoutes(init, locale), routes[|routes| - 1], locale, pp);
      HasParentRouteSnoc(routes, locale, pp);
    }
  }

  /** Both levels of the table keep their keys unique. */
  predicate WellFormed(data: GroupTable) {
    UniqueKeys(data) && forall i :: 0 <= i < |data| ==> UniqueKeys(data[i].1)
  }

  lemma {:induction false} GroupRoutesWellFormed(routes: seq<Route>, locale: Locale)
    ensures WellFormed(GroupRoutes(routes, locale))
  {
    if routes != [] {
      var init := routes[..|routes| - 1];
      var r := routes[|routes| - 1];
      GroupRoutesWellFormed(init, locale);
      var data := GroupRoutes(init, locale);
      if Qualifies(r, locale) {
        var fm := r.meta.value;
        var pp := RouteParentPath(r.path);
        var key := TitleKey(GroupTitle(fm.group));
        var bucket := Find(data, pp).GetOr([]);
        PutNestedWellFormed(data, pp, key,
          Merged(Find(bucket, key), GroupTitle(fm.group), GroupOrder(fm.group), ItemOf(r.path, fm)));
      }
    }
  }

  /** Storing a group under a parent path and key keeps both levels free of repeated keys. */
  lemma PutNestedWellFormed(data: GroupTable, pp: string, key: string, g: Group)
    requires WellFormed(data)
    ensures WellFormed(Put(data, pp, Put(Find(data, pp).GetOr([]), key, g)))
  {
    var bucket := Find(data, pp).GetOr([]);
    if Find(data, pp).Some? {
      var j :| 0 <= j < |data| && data[j] == (pp, bucket);
    }
    assert UniqueKeys(bucket);
    PutUnique(bucket, key, g);
    var nb := Put(bucket, key, g);
    PutUnique(data, pp, nb);
    var out := Put(data, pp, nb);
    forall i | 0 <= i < |out| ensures UniqueKeys(out[i].1) {
      FindStored(out, i);
      if out[i].0 != pp {
        assert Find(data, out[i].0) == Some(out[i].1);
        var j :| 0 <= j < |data| && data[j] == (out[i].0, out[i].1);
      }
    }
  }

  function ChildCount(g: Group): nat {
    |g.children|
  }

  function BucketChildren(bucket: Table<Group>): nat {
    SumBy(bucket, ChildCount)
  }

  /** The number of items across all groups of all parent paths. */
  function TotalChildren(data: GroupTable): nat {
    SumBy(data, BucketChildren)
  }

  function QualifyingCount(routes: seq<Route>, locale: Locale): nat {
    if routes == [] then 0
    else QualifyingCount(routes[..|routes| - 1], locale) + (if Qualifies(routes[|routes| - 1], locale) then 1 else 0)
  }

  /** Every qualifying route contributes exactly one item, and no other route contributes any. */
  lemma {:induction false} GroupRoutesChildCount(routes: seq<Route>, locale: Locale)
    ensures TotalChildren(GroupRoutes(routes, locale)) == QualifyingCount(routes, locale)
  {
    if routes != [] {
      var init := routes[..|routes| - 1];
      var r := routes[|routes| - 1];
      GroupRoutesChildCount(init, locale);
      var data := GroupRoutes(init, locale);
      if Qualifies(r, locale) {
        var fm := r.meta.value;
        var pp := RouteParentPath(r.path);
        var title := GroupTitle(fm.group);
        var key := TitleKey(title);
        var bucket := Find(data, pp).GetOr([]);
        var g := Merged(Find(bucket, key), title, GroupOrder(fm.group), ItemOf(r.path, fm));
        PutSum(bucket, key, g, ChildCount);
        PutSum(data, pp, Put(bucket, key, g), BucketChildren);
        assert BucketChildren(Put(bucket, key, g)) == BucketChildren(bucket) + 1;
      }
    }
  }

  // ---------------------------------------------------------------------
  // Sorting each bucket

  /** What the comparator sees of a group: its order and title, and no link. */
  function GroupEntry(g: Group): Entry {
    Entry(g.order, None, g.title)
  }

  /** What the comparator sees of an item: its order, link and title. */
  function ItemEntry(it: Item): Entry {
    Entry(it.order, Some(it.link), it.title)
  }

  function GroupEntries(gs: seq<Group>): (es: seq<Entry>)
    ensures |es| == |gs| && forall k :: 0 <= k < |gs| ==> es[k] == GroupEntry(gs[k])
  {
    seq(|gs|, k requires 0 <= k < |gs| => GroupEntry(gs[k]))
  }

  function ItemEntries(its: seq<Item>): (es: seq<Entry>)
    ensures |es| == |its| && forall k :: 0 <= k < |its| ==> es[k] == ItemEntry(its[k])
  {
    seq(|its|, k requires 0 <= k < |its| => ItemEntry(its[k]))
  }

  function GroupCmp(cmp: (Entry, Entry) -> int): (Group, Group) -> int {
    (g, h) => cmp(GroupEntry(g), GroupEntry(h))
  }

  function ItemCmp(cmp: (Entry, Entry) -> int): (Item, Item) -> int {
    (x, y) => cmp(ItemEntry(x), ItemEntry(y))
  }

  lemma GroupCmpConsistent(cmp: (Entry, Entry) -> int, gs: seq<Group>)
    requires ConsistentOn(cmp, GroupEntries(gs))
    ensures ConsistentOn(GroupCmp(cmp), gs)
  {
    var es := GroupEntries(gs);
    forall g | g in gs ensures GroupEntry(g) in es {
      var k :| 0 <= k < |gs| && gs[k] == g;
      assert es[k] == GroupEntry(g);
    }
  }

  lemma ItemCmpConsistent(cmp: (Entry, Entry) -> int, its: seq<Item>)
    requires ConsistentOn(cmp, ItemEntries(its))
    ensures ConsistentOn(ItemCmp(cmp), its)
  {
    var es := ItemEntries(its);
    forall it | it in its ensures ItemEntry(it) in es {
      var k :| 0 <= k < |its| && its[k] == it;
      assert es[k] == ItemEntry(it);
    }
  }

  /**
   * Position by position, the same groups with their children possibly
   * reordered, tied children keeping their order.
   */
  ghost predicate SameGroupsUpToChildOrder(cmp: (Entry, Entry) -> int, mid: seq<Group>, out: seq<Group>) {
    && |mid| == |out|
    && forall k :: 0 <= k < |out| ==>
         out[k].title == mid[k].title && out[k].order == mid[k].order
         && multiset(out[k].children) == multiset(mid[k].children)
         && StableOrder(ItemCmp(cmp), mid[k].children, out[k].children)
  }

  /**
   * `out` is `groups` after a stable sort: a permutation of the groups, each
   * with a permutation of its children, where values the comparator ties
   * keep their order; the groups are in order whenever the comparator is
   * consistent on them, and so are the children of each group.
   */
  ghost predicate SortedBucket(cmp: (Entry, Entry) -> int, groups: seq<Group>, out: seq<Group>) {
    && (exists mid ::
          && multiset(mid) == multiset(groups)
          && StableOrder(GroupCmp(cmp), groups, mid)
          && SameGroupsUpToChildOrder(cmp, mid, out))
    && (ConsistentOn(cmp, GroupEntries(groups)) ==> SortedBy(cmp, GroupEntries(out)))
    && (forall k :: 0 <= k < |out| && ConsistentOn(cmp, ItemEntries(out[k].children))
          ==> SortedBy(cmp, ItemEntries(out[k].children)))
  }

  /** Entries of elements drawn from `s` are entries of `s`. */
  lemma ItemEntriesSubset(s: seq<Item>, t: seq<Item>)
    requires forall x :: x in t ==> x in s
    ensures forall e :: e in ItemEntries(t) ==> e in ItemEntries(s)
  {
    forall e | e in ItemEntries(t) ensures e in ItemEntries(s) {
      var k :| 0 <= k < |t| && ItemEntries(t)[k] == e;
      assert t[k] in s;
      var j :| 0 <= j < |s| && s[j] == t[k];
      assert ItemEntries(s)[j] == e;
    }
  }

  /** `group.children.sort(cmp)`: the group with its children sorted. */
  method SortChildren(g: Group, cmp: (Entry, Entry) -> int) returns (g': Group)
    ensures g'.title == g.title && g'.order == g.order
    ensures multiset(g'.children) == multiset(g.children)
    ensures StableOrder(ItemCmp(cmp), g.children, g'.children)
    ensures ConsistentOn(cmp, ItemEntries(g'.children)) ==> SortedBy(cmp, ItemEntries(g'.children))
  {
    var children := SortSeq(g.children, ItemCmp(cmp));
    if ConsistentOn(cmp, ItemEntries(children)) {
      forall x | x in g.children ensures x in children {
        assert x in multiset(children);
      }
      ItemEntriesSubset(children, g.children);
      ConsistentOnSubset(cmp, ItemEntries(children), ItemEntries(g.children));
      ItemCmpConsistent(cmp, g.children);
    }
    g' := g.(children := children);
  }

  /** Sorts one bucket's groups, then each group's children, as the `sort` and `forEach` calls do. */
  method SortGroups(groups: seq<Group>, cmp: (Entry, Entry) -> int) returns (out: seq<Group>)
    ensures SortedBucket(cmp, groups, out)
  {
    out := SortSeq(groups, GroupCmp(cmp));
    ghost var mid := out;
    var k := 0;
    while k < |out|
      invariant 0 <= k <= |out|
      invariant SameGroupsUpToChildOrder(cmp, mid, out)
      invariant forall j :: 0 <= j < k && ConsistentOn(cmp, ItemEntries(out[j].children))
                  ==> SortedBy(cmp, ItemEntries(out[j].children))
    {
      var g := SortChildren(out[k], cmp);
      out := out[k := g];
      k := k + 1;
    }
    assert GroupEntries(out) == GroupEntries(mid);
    if ConsistentOn(cmp, GroupEntries(groups)) {
      GroupCmpConsistent(cmp, groups);
    }
  }

  /** With the corrected comparator and a collation order, every sorted bucket is in order. */
  lemma SortedBucketUnderIntended(lc: (string, string) -> int, groups: seq<Group>, out: seq<Group>)
    requires CollationOrder(lc) && SortedBucket(IntendedFn(lc), groups, out)
    requires forall k, j :: 0 <= k < |out| && 0 <= j < |out[k].children| ==> out[k].children[j].link != ""
    ensures SortedBy(IntendedFn(lc), GroupEntries(out))
    ensures forall k :: 0 <= k < |out| ==> SortedBy(IntendedFn(lc), ItemEntries(out[k].children))
  {
    IntendedConsistent(lc, GroupEntries(groups));
    forall k | 0 <= k < |out| ensures ConsistentOn(IntendedFn(lc), ItemEntries(out[k].children)) {
      var es := ItemEntries(out[k].children);
      forall e | e in es ensures Truthy(e.link) {
        var j :| 0 <= j < |es| && es[j] == e;
      }
      IntendedConsistent(lc, es);
    }
  }

  // ---------------------------------------------------------------------
  // The whole sidebar

  /** `groups` is `bucket`'s groups after sorting, as a relation to hand to `Tables`. */
  ghost function SortedFrom(cmp: (Entry, Entry) -> int): (Table<Group>, seq<Group>) -> bool {
    (bucket: Table<Group>, groups: seq<Group>) => SortedBucket(cmp, Values(bucket), groups)
  }

  /** Turns the table into the configuration, sorting every bucket (`Object.entries(data).reduce`). */
  method SortBuckets(data: GroupTable, cmp: (Entry, Entry) -> int) returns (config: Sidebar)
    requires UniqueKeys(data)
    ensures forall pp :: pp in config <==> HasKey(data, pp)
    ensures forall pp :: pp in config ==>
      Find(data, pp).Some? && SortedBucket(cmp, Values(Find(data, pp).value), config[pp])
  {
    config := map[];
    var i := 0;
    while i < |data|
      invariant 0 <= i <= |data|
      invariant FoldedFrom(data[..i], config, SortedFrom(cmp))
    {
      var sorted := SortGroups(Values(data[i].1), cmp);
      FoldedStep(data, i, config, SortedFrom(cmp), sorted);
      config := config[data[i].0 := sorted];
      i := i + 1;
    }
    assert data[..i] == data;
    SortedConfig(data, config, cmp);
  }

  /** A fold of sorted buckets over the whole table has its parent paths, each holding its bucket sorted. */
  lemma SortedConfig(data: GroupTable, config: Sidebar, cmp: (Entry, Entry) -> int)
    requires UniqueKeys(data) && FoldedFrom(data, config, SortedFrom(cmp))
    ensures forall pp :: pp in config <==> HasKey(data, pp)
    ensures forall pp :: pp in config ==>
      Find(data, pp).Some? && SortedBucket(cmp, Values(Find(data, pp).value), config[pp])
  {
    FoldedWhole(data, config, SortedFrom(cmp));
    forall pp | pp in config
      ensures Find(data, pp).Some? && SortedBucket(cmp, Values(Find(data, pp).value), config[pp])
    {
      assert SortedFrom(cmp)(Find(data, pp).value, config[pp]);
    }
  }

  predicate Overridden(user: Option<Sidebar>, pp: string) {
    user.Some? && pp in user.value
  }

  /**
   * `Object.assign(sidebarConfig, themeConfig.sidebar)`: every key the user
   * configured is replaced by the user's groups; every other key is kept.
   */
  function MergeOverride(config: Sidebar, user: Option<Sidebar>): (r: Sidebar)
    ensures forall pp :: pp in r <==> pp in config || Overridden(user, pp)
    ensures forall pp :: Overridden(user, pp) ==> r[pp] == user.value[pp]
    ensures forall pp :: pp in config && !Overridden(user, pp) ==> r[pp] == config[pp]
  {
    match user
    case None => config
    case Some(u) => config + u
  }

  /**
   * `useFullSidebarData`: groups the routes, sorts each bucket with `cmp`,
   * then lets the user configuration override whole parent paths.
   */
  method BuildSidebar(routes: seq<Route>, locale: Locale, cmp: (Entry, Entry) -> int, user: Option<Sidebar>)
    returns (sidebar: Sidebar)
    ensures forall pp :: pp in sidebar <==>
      Overridden(user, pp)
      || exists i :: 0 <= i < |routes| && Qualifies(routes[i], locale) && RouteParentPath(routes[i].path) == pp
    ensures forall pp :: Overridden(user, pp) ==> sidebar[pp] == user.value[pp]
    ensures forall pp :: pp in sidebar && !Overridden(user, pp) ==>
      Find(GroupRoutes(routes, locale), pp).Some?
      && SortedBucket(cmp, Values(Find(GroupRoutes(routes, locale), pp).value), sidebar[pp])
  {
    var data := CollectGroups(routes, locale);
    GroupRoutesWellFormed(routes, locale);
    var config := SortBuckets(data, cmp);
    sidebar := MergeOverride(config, user);
    forall pp ensures HasKey(data, pp) <==>
      exists i :: 0 <= i < |routes| && Qualifies(routes[i], locale) && RouteParentPath(routes[i].path) == pp
    {
      GroupRoutesBuckets(routes, locale, pp);
    }
  }

  /** The group keys of the qualifying routes under `pp`, in route order, repeats included. */
  function BucketRouteKeys(routes: seq<Route>, locale: Locale, pp: string): seq<string> {
    if routes == [] then []
    else
      var r := routes[|routes| - 1];
      BucketRouteKeys(routes[..|routes| - 1], locale, pp)
        + if Qualifies(r, locale) && RouteParentPath(r.path) == pp then [TitleKey(GroupTitle(r.meta.value.group))] else []
  }

  /** The distinct elements of `s`, each where it first appears. */
  function {:induction false} FirstAppearances(s: seq<string>): (r: seq<string>)
    ensures forall x :: x in r <==> x in s
    ensures forall i, j :: 0 <= i < j < |r| ==> r[i] != r[j]
  {
    if s == [] then []
    else
      var init := s[..|s| - 1];
      var d := FirstAppearances(init);
      assert s == init + [s[|s| - 1]];
      if s[|s| - 1] in d then d else d + [s[|s| - 1]]
  }

  /** A qualifying route adds its group key to its bucket's keys, unless the key is already there. */
  lemma AddRouteBucketKeys(data: GroupTable, r: Route, locale: Locale)
    requires Qualifies(r, locale)
    ensures var b0 := Find(data, RouteParentPath(r.path)).GetOr([]);
      var key := TitleKey(GroupTitle(r.meta.value.group));
      Keys(Find(AddRoute(data, r, locale), RouteParentPath(r.path)).GetOr([])) ==
        if key in Keys(b0) then Keys(b0) else Keys(b0) + [key]
  {
    var fm := r.meta.value;
    var pp := RouteParentPath(r.path);
    var key := TitleKey(GroupTitle(fm.group));
    var b0 := Find(data, pp).GetOr([]);
    var g := Merged(Find(b0, key), GroupTitle(fm.group), GroupOrder(fm.group), ItemOf(r.path, fm));
    assert Find(AddRoute(data, r, locale), pp) == Some(Put(b0, key, g));
    PutKeys(b0, key, g);
    KeysHas(b0, key);
  }

  /** One more element extends the first appearances only when it is new. */
  lemma FirstAppearancesSnoc(s: seq<string>, x: string)
    ensures FirstAppearances(s + [x]) == if x in FirstAppearances(s) then FirstAppearances(s) else FirstAppearances(s) + [x]
  {
    assert (s + [x])[..|s + [x]| - 1] == s;
  }

  /**
   * `Object.values` of a bucket lists its groups by the first route of each
   * key: the order the stable sort then keeps for tied groups.
   */
  lemma {:induction false} BucketKeyOrder(routes: seq<Route>, locale: Locale, pp: string)
    ensures Keys(Find(GroupRoutes(routes, locale), pp).GetOr([])) == FirstAppearances(BucketRouteKeys(routes, locale, pp))
  {
    if routes != [] {
      var init := routes[..|routes| - 1];
      var r := routes[|routes| - 1];
      var data0 := GroupRoutes(init, locale);
      var ks0 := BucketRouteKeys(init, locale, pp);
      BucketKeyOrder(init, locale, pp);
      assert GroupRoutes(routes, locale) == AddRoute(data0, r, locale);
      if Qualifies(r, locale) && RouteParentPath(r.path) == pp {
        var key := TitleKey(GroupTitle(r.meta.value.group));
        assert BucketRouteKeys(routes, locale, pp) == ks0 + [key];
        AddRouteBucketKeys(data0, r, locale);
        FirstAppearancesSnoc(ks0, key);
      } else {
        assert BucketRouteKeys(routes, locale, pp) == ks0;
        assert Find(AddRoute(data0, r, locale), pp) == Find(data0, pp);
      }
    }
  }

  /** The groups of a generated bucket are, in insertion order, the expected groups of their keys. */
  lemma BucketHoldsExpectedGroups(routes: seq<Route>, locale: Locale, pp: string, k: int)
    requires HasKey(GroupRoutes(routes, locale), pp)
    requires 0 <= k < |Find(GroupRoutes(routes, locale), pp).value|
    ensures var bucket := Find(GroupRoutes(routes, locale), pp).value;
      ExpectedGroup(routes, locale, pp, bucket[k].0) == Some(bucket[k].1)
  {
    var data := GroupRoutes(routes, locale);
    var bucket: Table<Group> := Find(data, pp).value;
    GroupRoutesWellFormed(routes, locale);
    var j :| 0 <= j < |data| && data[j] == (pp, bucket);
    FindStored(bucket, k);
    GroupRoutesMatchesExpected(routes, locale, pp, bucket[k].0);
  }

  // ---------------------------------------------------------------------
  // The current page

  /**
   * The parent path of the current location: the pathname without its last
   * segment when the locale-cleared pathname is non-empty, else the pathname.
   */
  function LocationKey(locale: Locale, pathname: string): (pp: string)
    ensures pp == "" <==> pathname == ""
    ensures pp <= pathname
  {
    var clearPath := LocaleClearPath(SliceFrom1(pathname), locale);
    if clearPath != "" then LocationParentPath(pathname) else pathname
  }

  /**
   * `useSidebarData`: `sidebar[parentPath]`, which may be undefined (None),
   * or `[]` when the parent path is empty.
   */
  function CurrentSidebar(sidebar: Sidebar, locale: Locale, pathname: string): (r: Option<seq<Group>>)
    ensures pathname == "" ==> r == Some([])
    ensures pathname != "" ==> (r.Some? <==> LocationKey(locale, pathname) in sidebar)
    ensures pathname != "" && r.Some? ==> r.value == sidebar[LocationKey(locale, pathname)]
  {
    var parentPath := LocationKey(locale, pathname);
    if parentPath == "" then Some([])
    else if parentPath in sidebar then Some(sidebar[parentPath])
    else None
  }

  /** Under base `/L`, the location `/L/x/y` is looked up under `/L/x`. */
  lemma LocationKeyNestedPage(id: string, prefix: string, x: string, y: string)
    requires '/' !in x && x != "" && '/' !in y && y != ""
    ensures LocationKey(Locale(id, Some("/" + prefix)), "/" + prefix + "/" + x + "/" + y) == "/" + prefix + "/" + x
  {
    LocationClearOfNestedPage(id, prefix, x, y);
    LocationParentDropsLast("/" + prefix, x, y);
  }

  /** A top-level page `/L/a` under base `/L` looks up the locale root `/L`, the parent path its route is filed under. */
  lemma LocationKeyTopLevelLocalePage(id: string, prefix: string, page: string)
    requires prefix != "" && '/' !in prefix && page != "" && '/' !in page
    ensures LocationKey(Locale(id, Some("/" + prefix)), "/" + prefix + "/" + page) == "/" + prefix
    ensures RouteParentPath(prefix + "/" + page) == "/" + prefix
  {
    var pathname := "/" + prefix + "/" + page;
    assert pathname == "/" + prefix + ("/" + page);
    LocationClearOfLocalePrefixed(id, prefix, "/" + page, pathname);
    StripLeadingSlashOfSlash(page);
    TopLevelLocalePage(prefix, page);
  }

  /** Without a base, the location `/x/y` looks up `/x`. */
  lemma LocationKeyNoBase(id: string, x: string, y: string)
    requires '/' !in x && x != "" && '/' !in y && y != ""
    ensures LocationKey(Locale(id, None), "/" + x + "/" + y) == "/" + x
  {
    var pathname := "/" + x + "/" + y;
    assert pathname == "" + "/" + x + "/" + y && "/" + x == "" + "/" + x;
    assert |SliceFrom1(pathname)| == |pathname| - 1 > 0;
    LocationParentDropsLast("", x, y);
  }

  /** `/en-US/guide/start` under base `/en-US` shows the groups of `/en-US/guide`. */
  lemma CurrentSidebarNestedPage(sidebar: Sidebar, id: string, prefix: string, x: string, y: string)
    requires '/' !in x && x != "" && '/' !in y && y != ""
    ensures CurrentSidebar(sidebar, Locale(id, Some("/" + prefix)), "/" + prefix + "/" + x + "/" + y)
         == if "/" + prefix + "/" + x in sidebar then Some(sidebar["/" + prefix + "/" + x]) else None
  {
    LocationKeyNestedPage(id, prefix, x, y);
  }

  /** The locale's own root (`/en-US`) clears to nothing, so the pathname itself is looked up. */
  lemma CurrentSidebarLocaleRoot(sidebar: Sidebar, id: string, prefix: string)
    ensures CurrentSidebar(sidebar, Locale(id, Some("/" + prefix)), "/" + prefix)
         == if "/" + prefix in sidebar then Some(sidebar["/" + prefix]) else None
  {
    assert SliceFrom1("/" + prefix) == prefix + "";
    ClearPathOfLocalePrefixed(id, '/', prefix, "");
  }

  /** The site root `/` looks up the key `/`, under any locale; `[]` comes back only for an empty pathname. */
  lemma CurrentSidebarSiteRoot(sidebar: Sidebar, locale: Locale)
    ensures CurrentSidebar(sidebar, locale, "/") == if "/" in sidebar then Some(sidebar["/"]) else None
  {
    assert SliceFrom1("/") == "";
  }

  /** Routes with relative paths never create a bucket for `/`. */
  lemma NoRootBucket(routes: seq<Route>, locale: Locale)
    requires forall i :: 0 <= i < |routes| ==> routes[i].path == "" || routes[i].path[0] != '/'
    ensures !HasKey(GroupRoutes(routes, locale), "/")
  {
    GroupRoutesBuckets(routes, locale, "/");
    forall i | 0 <= i < |routes| && Qualifies(routes[i], locale)
      ensures RouteParentPath(routes[i].path) != "/"
    {
      if routes[i].path != "" {
        RouteParentNotRoot(routes[i].path);
      }
    }
  }
}
