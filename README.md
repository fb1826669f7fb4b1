# Sidebar data of a documentation site, in Dafny

This project models how the documentation theme derives its sidebar from the
site's document routes (`src/client/theme-api/useSidebarData.ts`):

- **Locale path clearing** (`getLocaleClearPath`): the first occurrence of the
  locale base (without its first character) is removed from a path, then one
  leading slash.
- **Entry comparator** (`useSidebarDataCompare`): numeric `order` first, then
  link depth (number of `/`-separated segments), then the title under the
  locale's collation, with `-1` for an untitled left-hand entry.
- **Sidebar builder** (`useFullSidebarData`): a fold over the routes fills a
  two-level table, parent path → group key (the title, or the stub
  `$default-group-title`) → group; each bucket's groups and each group's
  children are sorted with the comparator; the user's `themeConfig.sidebar`
  then replaces whole parent paths.
- **Current-page selector** (`useSidebarData`): the parent path of the current
  location, looked up in the full sidebar.

Files and modules:

| file | module | contents |
|---|---|---|
| `wrappers.dfy` | `Wrappers` | `Option`, for values that may be `undefined` |
| `tables.dfy` | `Tables` | a JavaScript object used as a dictionary: an insertion-ordered table with `Find`, `Put`, `Keys`, `Values` |
| `paths.dfy` | `Paths` | locale clearing, route parent path, location parent path; the leading-slash removal (line 10) written out over the first character, and the two trailing-segment removals (lines 57, 117) over the last `/` |
| `sorting.dfy` | `Sorting` | `Array.prototype.sort` as an in-place insertion sort on an `array`, with a caller-supplied comparator |
| `ordering.dfy` | `Ordering` | the comparator as written (`Compare`) and as its comment describes it (`CompareIntended`) |
| `sidebar.dfy` | `SidebarData` | routes, items and groups; the fold and its reference definition by filtering; bucket sorting; the override merge; the selector |

The route fold is a method (`CollectGroups`) whose loop replaces the
accumulator by the reducer's result one route at a time, proved equal to the
function `GroupRoutes`.
What the fold computes is then stated against an independent definition:
`ExpectedGroup` filters the routes of one parent path and key. The sort works
in place on an array, like the source's `.sort` calls. It is proved to
permute its input in every case while keeping the order of tied values, and
to sort whenever the comparator behaves as a total preorder on the elements
(`ConsistentOn`). Two values are tied (`Sorting.Tied`) when each compares
`<= 0` against the other. That is broader than ECMAScript's "compare equal",
because it also covers a pair that each compares negative against the other.
ECMAScript requires stability only for values that compare `0` under a
consistent comparator (`Sorting.EcmaConsistent`, which adds the sign flip to
`ConsistentOn`); there the two notions agree
(`Sorting.TiedMeansEqualUnderEcma`). The builder takes the comparator as a
parameter, as the source receives it from a hook. Passing
`Ordering.CompareFn(lc)` reproduces the source; passing
`Ordering.IntendedFn(lc)` gives the corrected order (see Findings).

Where the code and its comments differ, or where its behaviour may surprise,
the model follows the code:

- A top-level page under a locale prefix is filed under the locale root. The
  route `en-US/a` gets the parent path `/en-US`, and the location `/en-US/a`
  looks up `/en-US`. The comments on lines 54 and 113 say `/en-US/a`. The two
  computations still agree with each other (`Paths.TopLevelLocalePage`).
- The comment on line 115 says a trailing slash is stripped too. The
  replacement on line 117 drops it only when the pathname has two segments or
  more. `/a/b/` and `/a/b` both give `/a`, but `/a/` stays `/a/`
  (`Paths.LocationParentSingleSegment`). So the location `/a/` looks up a
  different key from `/a`.
- Line 120 returns `[]` only for an empty parent path, which only an empty
  pathname gives. At the site root `/`, the selector looks up the key `/`
  (`SidebarData.CurrentSidebarSiteRoot`). Routes with relative paths never
  create that key (`SidebarData.NoRootBucket`). So without a user override
  the result is `undefined`.
- When two routes share a group key, the group takes the title of the last of
  them. Titles differ under one key only for the routes that share the stub
  key: those whose group title is `""` or `undefined`, and those whose group
  is literally titled `$default-group-title`. All of them land in one group,
  whose title is that of the last of those routes (`SidebarData.TitleKey`,
  `SidebarData.GroupRoutesMatchesExpected`).

## Model

| member | source | states |
|---|---|---|
| `Paths.SliceFrom1` | src/client/theme-api/useSidebarData.ts:10 | `slice(1)` (of the locale base here, and of the pathname on line 109) drops the first character; an empty string stays empty |
| `Paths.IndexOf` | src/client/theme-api/useSidebarData.ts:10 | the pattern occurs at the returned index and at no earlier one; None only when it occurs nowhere (string-pattern `replace`) |
| `Paths.RemoveFirst` | src/client/theme-api/useSidebarData.ts:10 | `replace(p, '')` with a string pattern: the path is unchanged when `p` occurs nowhere; otherwise only the first occurrence is cut out |
| `Paths.StripLeadingSlash` | src/client/theme-api/useSidebarData.ts:10 | removes at most one character, and only a leading `/` |
| `Paths.LocaleClearPath` | src/client/theme-api/useSidebarData.ts:8-12 | without a base the path is unchanged; with one, the first occurrence of the base minus its first character is removed, then at most one leading slash; the result is never longer |
| `Paths.ClearPathOfLocalePrefixed` | src/client/theme-api/useSidebarData.ts:8-12 | a path starting with the base minus its first character loses exactly that prefix and at most one slash, even when the base recurs later in the path |
| `Paths.RouteParentPath` | src/client/theme-api/useSidebarData.ts:57 | the parent path starts with `/` and the rest is a prefix of the route path |
| `Paths.RouteParentOfChild` | src/client/theme-api/useSidebarData.ts:52-57 | `q/seg` with a non-empty slash-free last segment has parent `/q` (`a/b => /a`, `en-US/a/b => /en-US/a`) |
| `Paths.RouteParentOfTopLevel` | src/client/theme-api/useSidebarData.ts:53-57 | a path with no slash maps to `/` plus the whole path (`a => /a`) |
| `Paths.RouteParentOfTrailingSlash` | src/client/theme-api/useSidebarData.ts:57 | a path ending in `/` keeps everything: `q/` maps to `/q/` |
| `Paths.RouteParentNotRoot` | src/client/theme-api/useSidebarData.ts:57 | a non-empty path that does not start with `/` never has the parent `/` |
| `Paths.TopLevelLocalePage` | src/client/theme-api/useSidebarData.ts:52-57 | the route `en-US/a` is filed under `/en-US`, and the location `/en-US/a` has the location parent `/en-US` |
| `Paths.LocationParentPath` | src/client/theme-api/useSidebarData.ts:116-118 | the location parent is a prefix of the pathname, and empty exactly when the pathname is |
| `Paths.LocationParentDropsLast` | src/client/theme-api/useSidebarData.ts:110-117 | `pre/x/y` and `pre/x/y/` both map to `pre/x` (`/en-US/a/b/ => /en-US/a`) |
| `Paths.LocationParentSingleSegment` | src/client/theme-api/useSidebarData.ts:111-117 | `/a` stays `/a`, and `/a/` keeps its trailing slash |
| `Paths.LocationClearOfLocalePrefixed` | src/client/theme-api/useSidebarData.ts:109 | under base `/L`, the pathname `/L` + `rest` clears to `rest` minus at most one leading slash |
| `Paths.LocationClearOfNestedPage` | src/client/theme-api/useSidebarData.ts:109 | under base `/L`, the pathname `/L/x/y` clears to `x/y` |
| `Sorting.InsertionSort` | src/client/theme-api/useSidebarData.ts:88-90 | sorts the array in place: always a permutation that keeps the input order of any two values the comparator ties (stable), and sorted when the comparator is consistent on the elements |
| `Sorting.SortSeq` | src/client/theme-api/useSidebarData.ts:88 | the sorted copy is a stable permutation of the input, sorted when the comparator is consistent on it |
| `Sorting.TiedMeansEqualUnderEcma` | src/client/theme-api/useSidebarData.ts:88-90 | under a comparator consistent in ECMAScript's sense, two values are tied exactly when they compare `0` both ways, so the model's stability is the one ECMAScript requires |
| `Sorting.SwapKeepsTiedOrder` | src/client/theme-api/useSidebarData.ts:88-90 | swapping two neighbours that are out of order never reorders two tied values |
| `Ordering.SlashCount` | src/client/theme-api/useSidebarData.ts:26 | the count equals the number of `/` characters in the link, as a multiset counts them |
| `Ordering.SegmentCount` | src/client/theme-api/useSidebarData.ts:26 | `split('/').length` is one more than the number of slashes, and 1 exactly when there is none |
| `Ordering.DepthStep` | src/client/theme-api/useSidebarData.ts:26 | when `a` has a truthy link and `b` has a link, the difference of their slash counts; 0 otherwise |
| `Ordering.Compare` | src/client/theme-api/useSidebarData.ts:22-29 | the smaller order comes first; on equal orders the shallower link comes first; then an untitled `a` gives `-1` and a titled one gives `lc(a.title, b.title or "")` |
| `Ordering.CompareUntitledNotReflexive` | src/client/theme-api/useSidebarData.ts:28 | an untitled entry compared with itself gives `-1` |
| `Ordering.CompareUntitledNotAntisymmetric` | src/client/theme-api/useSidebarData.ts:28 | two untitled entries tied on order and depth each come before the other |
| `Ordering.CompareNotEcmaConsistent` | src/client/theme-api/useSidebarData.ts:28 | on two untitled entries tied on order and depth, the comparator as written counts them as tied yet is not consistent in ECMAScript's sense, so a sort may order them either way |
| `Ordering.CompareUntitledFirst` | src/client/theme-api/useSidebarData.ts:27-28 | on a tie an untitled `a` sorts before any `b`: first, not at the end as the comment says |
| `Ordering.CompareConsistentWhenTitled` | src/client/theme-api/useSidebarData.ts:22-29 | on titled entries of one kind (all links or none) under a collation order, the comparator is a total preorder |
| `Ordering.CompareConsistentWhenEmptyFirst` | src/client/theme-api/useSidebarData.ts:22-29 | when the collation puts `""` before every non-empty string, the comparator as written is a total preorder on entries of one kind, titled or not |
| `Ordering.CompareConsistentOnDistinctOrders` | src/client/theme-api/useSidebarData.ts:24 | when no two entries share an order, the comparator is a total preorder whatever the titles |
| `Ordering.CompareIntended` | src/client/theme-api/useSidebarData.ts:27 | the corrected comparator: same order and depth steps; titled entries before untitled ones; untitled entries tie |
| `Ordering.IntendedAgreesWhenTitled` | src/client/theme-api/useSidebarData.ts:27-28 | the correction changes nothing when both entries are titled |
| `Ordering.IntendedAntisymmetric` | src/client/theme-api/useSidebarData.ts:22-29 | the corrected comparator gives 0 on equal entries and flips its sign when the arguments are swapped |
| `Ordering.IntendedTransitive` | src/client/theme-api/useSidebarData.ts:22-29 | "not after" under the corrected comparator is transitive |
| `Ordering.IntendedConsistent` | src/client/theme-api/useSidebarData.ts:22-29 | on entries of one kind, titled or not, the corrected comparator is a total preorder |
| `Ordering.IntendedEcmaConsistent` | src/client/theme-api/useSidebarData.ts:22-29 | on entries of one kind, the corrected comparator is consistent in ECMAScript's sense: a total preorder whose sign flips when the arguments are swapped |
| `Tables.Values` | src/client/theme-api/useSidebarData.ts:88 | `Object.values` lists the values in insertion order, one per key |
| `Tables.Find` | src/client/theme-api/useSidebarData.ts:65-70 | a lookup finds a value exactly when the key is present, and the value is the one stored with it |
| `Tables.Put` | src/client/theme-api/useSidebarData.ts:65-66 | after `t[k] = v`, looking up `k` gives `v` and every other key gives what it gave before; the table grows by at most one pair |
| `Tables.PutNew` | src/client/theme-api/useSidebarData.ts:65-66 | assigning a key the object does not have appends its pair at the end |
| `Tables.PutExisting` | src/client/theme-api/useSidebarData.ts:65-66 | assigning a key the object already has leaves every key where it was |
| `Tables.PutKeys` | src/client/theme-api/useSidebarData.ts:65-66 | assigning keeps the key order; a new key goes last |
| `Tables.KeysHas` | src/client/theme-api/useSidebarData.ts:65-66 | a key is present exactly when it is among the listed keys |
| `Tables.PutUnique` | src/client/theme-api/useSidebarData.ts:65-66 | assigning never duplicates a key |
| `Tables.FoldedKeys` | src/client/theme-api/useSidebarData.ts:84-92 | the object a `reduce` over `Object.entries` builds has exactly the keys of the entries |
| `Tables.FoldedStep` | src/client/theme-api/useSidebarData.ts:84-92 | one more step of the `reduce`, storing a related value under the next entry's key, gives the fold of one more entry |
| `Tables.FoldedWhole` | src/client/theme-api/useSidebarData.ts:84-92 | after the whole `reduce` over entries with distinct keys, every key of the result holds a value related to the one stored under that key |
| `SidebarData.GroupTitle` | src/client/theme-api/useSidebarData.ts:58-61 | a group object gives its `title`; a plain value is itself the title; no group gives no title |
| `SidebarData.GroupOrder` | src/client/theme-api/useSidebarData.ts:58-61 | a group object gives its `order`, or 0 when it has none; a plain value or no group gives 0 |
| `SidebarData.QualifyingRoutes` | src/client/theme-api/useSidebarData.ts:48-51 | without a base a route is skipped exactly when its path is empty or it has no metadata; under base `/L` the route `L` + `rest` is skipped exactly when `rest` is empty or `/` (the locale's index page) or it has no metadata |
| `SidebarData.TitleKey` | src/client/theme-api/useSidebarData.ts:62 | the key is the title when it is truthy and the stub `$default-group-title` otherwise |
| `SidebarData.ItemOf` | src/client/theme-api/useSidebarData.ts:71-76 | the item's link is `/` plus the uncleared route path; its order is the frontmatter order or 0; its title and frontmatter come from the page |
| `SidebarData.FirstNonZero` | src/client/theme-api/useSidebarData.ts:68 | the result is 0 exactly when every number is 0; otherwise it is the number at the first non-zero position |
| `SidebarData.FirstNonZeroAppend` | src/client/theme-api/useSidebarData.ts:68 | `existing \|\| incoming` over a growing group gives the first non-zero order |
| `SidebarData.Merged` | src/client/theme-api/useSidebarData.ts:66-78 | a new group holds the route's title, group order and item; an existing one gets the route's title and the item appended to its children, and keeps its order unless that is 0 (`existing \|\| incoming`) |
| `SidebarData.MergeMember` | src/client/theme-api/useSidebarData.ts:66-78 | merging one more route into the group of some routes gives the expected group of those routes and that one |
| `SidebarData.AddRoute` | src/client/theme-api/useSidebarData.ts:48-81 | a route that does not qualify leaves the table unchanged; a qualifying one makes sure its parent path has a bucket and changes no other parent path; the table grows by at most one bucket |
| `SidebarData.GroupRoutes` | src/client/theme-api/useSidebarData.ts:45-82 | the fold over the routes, starting from `{}`; it never holds more buckets than there are routes |
| `SidebarData.AddRouteGroupAt` | src/client/theme-api/useSidebarData.ts:62-78 | one route changes only the group of its own parent path and key: it appends its item, takes the route's title, and keeps a non-zero order |
| `SidebarData.AddRouteBuckets` | src/client/theme-api/useSidebarData.ts:65 | one route adds at most its own parent path to the table |
| `SidebarData.CollectGroups` | src/client/theme-api/useSidebarData.ts:45-82 | the reduce loop over the routes yields the fold `GroupRoutes` |
| `SidebarData.GroupRoutesMatchesExpected` | src/client/theme-api/useSidebarData.ts:45-82 | for every parent path and key, the group is absent when no qualifying route belongs to it; otherwise it holds one item per member route in route order, takes the last member's title and the first non-zero group order |
| `SidebarData.GroupRoutesBuckets` | src/client/theme-api/useSidebarData.ts:50-65 | a parent path has a bucket exactly when some qualifying route (non-empty cleared path, with metadata) has that parent |
| `SidebarData.GroupRoutesWellFormed` | src/client/theme-api/useSidebarData.ts:65-66 | parent paths are unique, and so are group keys within each bucket |
| `SidebarData.GroupRoutesChildCount` | src/client/theme-api/useSidebarData.ts:50-78 | the items across all groups number exactly the qualifying routes |
| `SidebarData.BucketHoldsExpectedGroups` | src/client/theme-api/useSidebarData.ts:88 | each group of a bucket, taken in insertion order, is the expected group of its key |
| `SidebarData.AddRouteBucketKeys` | src/client/theme-api/useSidebarData.ts:62-66 | a qualifying route appends its group key to its bucket's keys when the key is new, and leaves the keys as they are otherwise |
| `SidebarData.BucketKeyOrder` | src/client/theme-api/useSidebarData.ts:62-66 | a bucket's group keys, the order `Object.values` hands to the sort, are the distinct group keys of its qualifying routes, each where its first route appears |
| `SidebarData.FirstAppearances` | src/client/theme-api/useSidebarData.ts:62-66 | the distinct elements of a sequence, with no repeats: an element is in the result exactly when it is in the input |
| `SidebarData.SortChildren` | src/client/theme-api/useSidebarData.ts:90 | a group's children are permuted stably, sorted when the comparator is consistent on them; title and order are kept |
| `SidebarData.SortGroups` | src/client/theme-api/useSidebarData.ts:88-90 | a bucket's groups are permuted and each one's children are permuted, both stably (tied values keep their order); the groups are sorted when the comparator is consistent on them, and so are the children of each group |
| `SidebarData.SortedBucketUnderIntended` | src/client/theme-api/useSidebarData.ts:88-90 | with the corrected comparator and a collation order, every sorted bucket and every group's children are in order |
| `SidebarData.SortBuckets` | src/client/theme-api/useSidebarData.ts:85-93 | the configuration has exactly the table's parent paths, each holding its bucket sorted |
| `SidebarData.SortedConfig` | src/client/theme-api/useSidebarData.ts:84-92 | a `reduce` that stores each sorted bucket under its parent path yields exactly the table's parent paths, each holding its bucket sorted |
| `SidebarData.MergeOverride` | src/client/theme-api/useSidebarData.ts:96 | every user-configured parent path is replaced by the user's groups; every other generated one is kept |
| `SidebarData.BuildSidebar` | src/client/theme-api/useSidebarData.ts:43-97 | the sidebar has a key for each user-configured path and for each parent of a qualifying route; user keys hold the user's groups, and the others hold their generated bucket, sorted |
| `SidebarData.NoRootBucket` | src/client/theme-api/useSidebarData.ts:50-57 | routes with relative paths never create a bucket for `/` |
| `SidebarData.LocationKey` | src/client/theme-api/useSidebarData.ts:109-118 | the looked-up parent path is a prefix of the pathname, and empty exactly when the pathname is |
| `SidebarData.CurrentSidebar` | src/client/theme-api/useSidebarData.ts:120 | `[]` for an empty pathname; otherwise the groups under the location's parent path, or None when that key is absent |
| `SidebarData.LocationKeyNestedPage` | src/client/theme-api/useSidebarData.ts:109-118 | under base `/L`, the location `/L/x/y` looks up the parent path `/L/x` |
| `SidebarData.LocationKeyNoBase` | src/client/theme-api/useSidebarData.ts:109-118 | without a locale base, the location `/x/y` looks up the parent path `/x` |
| `SidebarData.LocationKeyTopLevelLocalePage` | src/client/theme-api/useSidebarData.ts:109-118 | under base `/L`, the location `/L/a` looks up `/L`, the same parent path its route `L/a` is filed under |
| `SidebarData.CurrentSidebarNestedPage` | src/client/theme-api/useSidebarData.ts:109-120 | under base `/L`, the location `/L/x/y` shows the groups of `/L/x` |
| `SidebarData.CurrentSidebarLocaleRoot` | src/client/theme-api/useSidebarData.ts:109-120 | under base `/L`, the location `/L` clears to nothing and looks up `/L` itself |
| `SidebarData.CurrentSidebarSiteRoot` | src/client/theme-api/useSidebarData.ts:109-120 | the location `/` looks up the key `/` under any locale |

## Left out

- React and framework plumbing is not modelled: `useState` lazy memoisation, `useCallback`, `useLocale`, `useLocation`, `useSiteData` and `useLocaleDocRoutes`. Their results (routes, locale, pathname, user sidebar, comparator) are parameters.
- `String.prototype.localeCompare` under the locale's identifier is ICU collation, a foreign call. It is the parameter `lc`. Sortedness is proved only under `CollationOrder(lc)`.
- The JavaScript regular-expression engine is not modelled. The leading-slash removal (line 10) is an explicit function over the first character, and the two trailing-segment removals (lines 57, 117) are explicit functions over the last `/` of a string.
- How `Array.prototype.sort` orders elements under a comparator that is not consistent in ECMAScript's sense is implementation-defined. The model uses an insertion sort, which is stable like the engine's sort. Permutation and stability (over `Sorting.Tied` pairs) are proved for the model's sort under every comparator. Sortedness is proved only where the comparator is consistent on the elements (`ConsistentOn`). Where the comparator is not `Sorting.EcmaConsistent`, the engine may produce a different order from the model.
- `Sorting.SortSeq`, `SidebarData.SortChildren`: for two untitled children of one group that tie on order and link depth, the comparator as written returns `-1` both ways. The model counts them as tied and keeps them in route order. ECMAScript leaves their order to the engine, because the comparator is not consistent in its sense there (`Ordering.CompareNotEcmaConsistent`). V8's TimSort, read but not run, sees such a pair as a descending run and reverses it.
- `Ordering.Compare`: when `a.link` is truthy and `b.link` is undefined, the source throws a `TypeError`. The model lets the depth step give 0 there instead. The builder never meets this case, because groups (no link) and items (always a link) are sorted separately.
- Numbers are unbounded integers: no floating point, no `NaN`, no overflow of `a.order - b.order`.
- A frontmatter `group` that is `null` (which throws) is not modelled. Neither is a number or a boolean (which would become a non-string title). `GroupField` covers absent, a string, and an object.
- The frontmatter payload is carried as the record of the three fields the sidebar reads (`title`, `order`, `group`). Other fields are not modelled.
- JavaScript enumerates integer-like object keys before the others. `Tables` does not model that: it keeps pure insertion order.
- `Tables.Put`, `SidebarData.AddRoute`: a group whose key is `__proto__` is stored like any other. In the source, assigning to `ret[parentPath]['__proto__']` sets the bucket's prototype instead of creating an own key. That group and its items are then missing from `Object.values`. Parent paths always start with `/`, so only a group key can be `__proto__`.
- The generated configuration is a Dafny `map`, so `BuildSidebar` states nothing about the enumeration order of parent paths.
- Sorting a group's children updates the group object in place. The model replaces the group value in the sorted list, so aliasing of that object elsewhere is not captured.
- The `types` and `utils` modules (`ILocalesConfig`, `ISidebarGroup`, `IThemeConfig`, `useLocaleDocRoutes`) are not part of this model.

## Findings

| source | as written | input that shows it | evidently intended | confidence | as-written member | corrected member |
|---|---|---|---|---|---|---|
| src/client/theme-api/useSidebarData.ts:27-28 | when order and depth tie, an untitled `a` yields `-1` whatever `b` is | two untitled entries tied on order and link depth: `compare(a, b) = compare(b, a) = -1`, and `compare(a, a) = -1`. In the builder, this happens among the children of one group: two routes whose pages have no title, the same page order, and links with the same number of slashes (say `guide/a` and `guide/b`, both under group `G`). A bucket's groups hold at most one untitled group, because all untitled groups share the stub key. Visible consequence: the comparator is not consistent in ECMAScript's sense on such a pair (`Ordering.CompareNotEcmaConsistent`), so their order in the sidebar is left to the engine; the model keeps route order, and V8 (read, not run) reverses the pair | untitled entries go after titled ones and tie with each other, as the comment on line 27 says, making the comparator antisymmetric (`Ordering.IntendedAntisymmetric`), so it is consistent in ECMAScript's sense (`Ordering.IntendedEcmaConsistent`) | medium; not executed | `Ordering.CompareUntitledNotAntisymmetric` | `Ordering.CompareIntended` (total preorder: `Ordering.IntendedConsistent`; buckets sorted: `SidebarData.SortedBucketUnderIntended`) |
