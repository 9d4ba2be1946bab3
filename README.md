# Statistics chart-tab queries and My Sites controller rules, in Dafny

This project models two parts of the WordPress.com web client (wp-calypso).

**The chart-tab utility** (`client/my-sites/stats/stats-chart-tabs/utility.js`) plans the two
statistics queries behind a chart and merges their answers:

- `GenerateQueries` splits the five metric fields (`views, visitors, likes, comments,
  post_titles`) between a primary query and a supplemental query. The primary query asks for the
  chart tab's field, plus `visitors` on the `views` tab. The supplemental query asks for every
  other field. Field lists stay comma-joined strings, as in the source, with JavaScript's
  `split`/`join` behaviour.
- `GetQueryDate` anchors a page of `quantity` periods. Dates are integer period indices. The end
  of the current period is an input.
- `MergeQueryResults` is an imperative method. It builds an insertion-ordered map (the class
  `OrderedMap`, modelling a JavaScript `Map`) from the primary records. It then folds each
  supplemental record into that map and lists the map's values. It is proved equal to
  `MergedSeries`, a direct statement of the result: one record per key, with the keys in order
  of first appearance. The lemmas beside it state what the merge promises.
- `FormatDate` picks the label format for a period. Any other period gives no label (`None`,
  the source's `null`).

**The My Sites controller** (`client/my-sites/controller.js`) contributes four decision rules.
They are modelled as pure functions, and the store lookups they make are their inputs:

- the recent-sites preference update;
- the pages a domain-only site may open;
- the Jetpack module gate;
- the site picker's base path.

The recent-sites filter uses the state snapshot taken when `onSelectedSiteAvailable` starts.
That snapshot is taken before the selected site may be received into the store. So `known` is
the set of sites known before that call.

Records are flat maps from field name to `Null`, an integer or a string. A record's key is the
value of its key field, or `None` when the field is missing (JavaScript `undefined`).

Two behaviours of the code are worth stating outright:

- On a shared period, every non-null supplemental value overwrites the primary record's field
  (`merge(a, omitBy(b, isNull))`, utility.js line 43). Null supplemental values leave it alone.
- Neither a zero quantity nor a record missing the key field is rejected. Records without the key
  field share the `undefined` key. With a zero quantity the amount to subtract is `NaN`; moment
  treats a `NaN` duration as zero, so the end of the period is returned.

## Model

| member | source | states |
|---|---|---|
| `Sequences.Dedup` | client/my-sites/controller.js:230 | lodash `uniq`: the result holds exactly the input's elements, each once, in input order (a subsequence), no longer than the input |
| `Sequences.DedupConcat` | client/my-sites/stats/stats-chart-tabs/utility.js:40-47 | de-duplicating `xs + ys` lists `xs`'s elements first, then `ys`'s new elements in `ys` order |
| `Sequences.DedupHead` | client/my-sites/controller.js:230 | the first element of a non-empty list stays first after `uniq` |
| `Sequences.DedupOfDistinct` | client/my-sites/stats/stats-chart-tabs/utility.js:40 | a list without repeats is unchanged by de-duplication |
| `Sequences.Filter` | client/my-sites/controller.js:232 | `filter`: the result holds exactly the input elements that pass, no longer than the input |
| `Sequences.FilterIsSubsequence` | client/my-sites/controller.js:232 | a filtered list keeps the input's order (it is a subsequence) |
| `Sequences.FilterDistinct` | client/my-sites/controller.js:230-232 | filtering a list without repeats leaves no repeats |
| `Sequences.Take` | client/my-sites/controller.js:231 | `slice(0, n)`: the first `min(n, length)` elements, unchanged |
| `OrderedMaps.OrderedMap.constructor` | client/my-sites/stats/stats-chart-tabs/utility.js:40 | `new Map()` starts with no keys and no entries |
| `OrderedMaps.OrderedMap.Has` | client/my-sites/stats/stats-chart-tabs/utility.js:42 | `has(k)` is true iff `k` was inserted |
| `OrderedMaps.OrderedMap.Get` | client/my-sites/stats/stats-chart-tabs/utility.js:43 | `get(k)` is the stored value, or undefined (`None`) for a missing key |
| `OrderedMaps.OrderedMap.Set` | client/my-sites/stats/stats-chart-tabs/utility.js:45 | `set(k, v)` stores `v`; a new key goes last, an existing key keeps its place |
| `OrderedMaps.OrderedMap.Values` | client/my-sites/stats/stats-chart-tabs/utility.js:47 | `[...values()]` lists the stored values in key-insertion order |
| `StatsQueries.Split` | client/my-sites/stats/stats-chart-tabs/utility.js:31 | `split(',')` yields at least one part, and no part contains a comma |
| `StatsQueries.Join` | client/my-sites/stats/stats-chart-tabs/utility.js:31 | `join(',')`: the result starts with the first part, and for comma-free parts it holds a comma iff there are two or more parts |
| `StatsQueries.SplitJoin` | client/my-sites/stats/stats-chart-tabs/utility.js:31 | joining comma-free names with `,` and splitting again returns them |
| `StatsQueries.QueryFieldsCommaFree` | client/my-sites/stats/stats-chart-tabs/utility.js:14 | no field name in `QUERY_FIELDS` contains a comma |
| `StatsQueries.GenerateQueries` | client/my-sites/stats/stats-chart-tabs/utility.js:28-37 | both queries carry the same unit, date and quantity; the primary fields are `views,visitors` on the `views` tab and the tab itself otherwise |
| `StatsQueries.PrimaryFields` | client/my-sites/stats/stats-chart-tabs/utility.js:30 | for a canonical tab, the primary fields split to `[views, visitors]` on the `views` tab and to the tab alone otherwise |
| `StatsQueries.SupplementalFields` | client/my-sites/stats/stats-chart-tabs/utility.js:31 | split back, the supplemental fields are exactly the canonical fields the primary fields lack, in canonical order; with none left they are the empty string |
| `StatsQueries.ComplementRoundTrip` | client/my-sites/stats/stats-chart-tabs/utility.js:31 | the joined difference splits back into itself and keeps the universe's order |
| `StatsQueries.SupplementalIsComplement` | client/my-sites/stats/stats-chart-tabs/utility.js:31 | for any tab leaving some fields over, the supplemental fields are `QUERY_FIELDS` minus the primary fields, in canonical order, disjoint from the primary fields |
| `StatsQueries.ComplementPartition` | client/my-sites/stats/stats-chart-tabs/utility.js:31 | a sub-collection and its difference are disjoint and together give the universe |
| `StatsQueries.QueryFieldsPartition` | client/my-sites/stats/stats-chart-tabs/utility.js:28-36 | for a tab in `QUERY_FIELDS`, the primary and supplemental fields are disjoint, their union is `QUERY_FIELDS`, and the supplemental fields are in canonical order |
| `StatsQueries.FloorDiv` | client/my-sites/stats/stats-chart-tabs/utility.js:22 | `Math.floor(a / b)` is the greatest integer whose multiple of `b` does not pass `a`, for either sign of `b` |
| `StatsQueries.GetQueryDate` | client/my-sites/stats/stats-chart-tabs/utility.js:16-26 | for a positive quantity the anchor is a whole number of pages before the end of the period, and a date not in the future lies in the anchor's page `(anchor - quantity, anchor]`; a zero quantity gives the end of the period |
| `StatsQueries.AnchorBeforeCurrentPage` | client/my-sites/stats/stats-chart-tabs/utility.js:19-23 | a date at least one page back is anchored `k >= 1` whole pages before the end of the period, and the anchor's page `[anchor - (quantity - 1), anchor]` holds the date |
| `StatsQueries.AnchorInCurrentPage` | client/my-sites/stats/stats-chart-tabs/utility.js:20-25 | a date less than one page back, or any date with a zero quantity, is anchored at the end of the period |
| `StatsQueries.AnchorExample` | client/my-sites/stats/stats-chart-tabs/utility.js:19-23 | with 7-period pages, a date 10 periods back is anchored 7 periods back |
| `StatsQueries.AnchorFixedPoint` | client/my-sites/stats/stats-chart-tabs/utility.js:16-26 | anchoring a returned anchor again gives the same anchor |
| `StatsQueries.AnchorIsUniqueBoundary` | client/my-sites/stats/stats-chart-tabs/utility.js:19-25 | for a date not in the future, the anchor is the only page boundary whose page holds the date |
| `StatsQueries.FormatDate` | client/my-sites/stats/stats-chart-tabs/utility.js:50-64 | `day`, `week`, `month`, `year` each get their label format, and a week spans the date and six days on; any other period gives `null` |
| `StatsMerge.KeyOf` | client/my-sites/stats/stats-chart-tabs/utility.js:40 | `result[id]` is the key field's value, or `undefined` (`None`) exactly when the field is missing |
| `StatsMerge.OmitNulls` | client/my-sites/stats/stats-chart-tabs/utility.js:43 | `omitBy(r, isNull)` keeps exactly the non-null fields, with their values |
| `StatsMerge.Assign` | client/my-sites/stats/stats-chart-tabs/utility.js:43 | `merge` on flat records: the field set is the union, a source field wins, and every other target field is kept |
| `StatsMerge.MergeNonNull` | client/my-sites/stats/stats-chart-tabs/utility.js:43 | `merge(a, omitBy(b, isNull))`: non-null fields of `b` win; fields `b` leaves null or lacks keep `a`'s value; the field set is `a`'s plus `b`'s non-null ones |
| `StatsMerge.LastWithKey` | client/my-sites/stats/stats-chart-tabs/utility.js:40 | a `Map` built from the primary list holds, for each key present, a record of the list with that key after which no record has that key |
| `StatsMerge.MergedRecord` | client/my-sites/stats/stats-chart-tabs/utility.js:40-46 | the reference definition of the record stored under a key: it carries that key when the key occurs in either list, and is empty otherwise |
| `StatsMerge.MergedSeries` | client/my-sites/stats/stats-chart-tabs/utility.js:39-48 | the reference definition of the merge: its keys, in order, are the de-duplicated keys of the primary list followed by those of the supplemental list |
| `StatsMerge.MergeQueryResults` | client/my-sites/stats/stats-chart-tabs/utility.js:39-48 | the Map-and-loop merge returns exactly `MergedSeries` of its two inputs |
| `StatsMerge.IndexByKey` | client/my-sites/stats/stats-chart-tabs/utility.js:40 | the Map built from the primary records holds each key once, in first-appearance order, with the last primary record of that key |
| `StatsMerge.FoldSupplemental` | client/my-sites/stats/stats-chart-tabs/utility.js:41-46 | after folding in the supplemental records, every key of either list is present, in first-appearance order, with its merged record |
| `StatsMerge.OverlayKeepsKey` | client/my-sites/stats/stats-chart-tabs/utility.js:43 | merging records that share a key keeps that key |
| `StatsMerge.MergedSeriesKeys` | client/my-sites/stats/stats-chart-tabs/utility.js:40-47 | the output has one record per distinct key; its keys are the union of both lists' keys, the primary keys first (first-occurrence order), then the supplemental-only keys in supplemental order; its length is at most the primary length plus the number of supplemental-only keys |
| `StatsMerge.LastWithUniqueKey` | client/my-sites/stats/stats-chart-tabs/utility.js:40 | with unique primary keys, the Map holds each primary record under its own key |
| `StatsMerge.UniqueKeyUpdates` | client/my-sites/stats/stats-chart-tabs/utility.js:41-45 | with unique supplemental keys, exactly one supplemental record updates a given key |
| `StatsMerge.MergedPrimaryRecord` | client/my-sites/stats/stats-chart-tabs/utility.js:40-43 | with unique primary keys, the `i`th output record is the `i`th primary record with every supplemental record of its key merged in |
| `StatsMerge.MergedSharedKey` | client/my-sites/stats/stats-chart-tabs/utility.js:42-43 | for a key in both lists, every non-null supplemental field overwrites, and a null or absent supplemental field leaves the primary value |
| `StatsMerge.MergedPrimaryOnlyKey` | client/my-sites/stats/stats-chart-tabs/utility.js:40-47 | for a primary key the supplemental list lacks, the output holds the last primary record with that key, unchanged, at the key's first position; with unique primary keys this is the `i`th primary record at position `i` |
| `StatsMerge.MergedNewKey` | client/my-sites/stats/stats-chart-tabs/utility.js:44-45 | a supplemental record whose key the primary list lacks is output as it is, nulls included, after all primary keys |
| `StatsMerge.NonClobberExample` | client/my-sites/stats/stats-chart-tabs/utility.js:42-43 | `{views: 10, likes: null}` merged with `{views: null, likes: 5}` for one period gives `{views: 10, likes: 5}` |
| `StatsMerge.KeyUnionExample` | client/my-sites/stats/stats-chart-tabs/utility.js:40-47 | primary `[p1]` and supplemental `[p1, p2]` give keys `[p1, p2]` |
| `SitesController.RecentCandidates` | client/my-sites/controller.js:230-231 | `uniq([selected, ...recent]).slice(0, 5)` has no repeats and at most 5 entries, starts with the selected site, and holds nothing but it and recent sites |
| `SitesController.UpdatedRecentSites` | client/my-sites/controller.js:230-232 | the new recent-sites list has no repeats and at most 5 entries; it holds only known sites; it is a subsequence of the first five of `uniq([selected, ...recent])` and holds exactly that prefix's known sites; a known selected site comes first |
| `SitesController.RecentSitesToSave` | client/my-sites/controller.js:226-234 | the preference is rewritten iff remote preferences arrived and the selected site is not already `recentSites[0]` |
| `SitesController.SavedListHasNewHead` | client/my-sites/controller.js:228-233 | when the preference is saved for a known site, the saved list starts with that site and differs from the old list |
| `SitesController.OnSelectedSiteAvailable` | client/my-sites/controller.js:215-237 | selection stops iff the site is domain-only and `IsPathAllowedForDomainOnlySite` refuses the path (never for a checkout path), and then no preference is saved; otherwise the saved preference is `RecentSitesToSave` |
| `SitesController.AllManagementPages` | client/my-sites/controller.js:166-181 | every domain-management page is in the list of path factories |
| `SitesController.PagePaths` | client/my-sites/controller.js:183 | one path per page factory; a path is in the list iff some page's factory gives it |
| `SitesController.DomainManagementPaths` | client/my-sites/controller.js:183-189 | the primary-domain variants are added only when a primary domain exists and its name differs from the slug; the list then has 28 paths, else 14 |
| `SitesController.StartsWith` | client/my-sites/controller.js:193 | lodash `startsWith(s, prefix)` holds iff `s` begins with all of `prefix` |
| `SitesController.IsPathAllowedForDomainOnlySite` | client/my-sites/controller.js:165-198 | paths starting with `/checkout/` or `/me/purchases/<slug>` are allowed; any other path is allowed iff some page's factory produces it under the slug, or under the distinct primary domain |
| `SitesController.PrimaryDomainNamedAsSlug` | client/my-sites/controller.js:185 | a primary domain named like the slug allows the same paths as no primary domain |
| `SitesController.JetpackModuleActive` | client/my-sites/controller.js:448-456 | a non-Jetpack site continues; a Jetpack site continues iff the module is active or `redirect` is `false`; otherwise it redirects to `redirect` if that is a string, else to `/stats` |
| `SitesController.SitesBasePath` | client/my-sites/controller.js:250 | `/sites` becomes `/stats`; every other path is kept; the result is never `/sites` |
| `SitesController.SitesBasePathIdempotent` | client/my-sites/controller.js:250 | applying the base-path rule twice equals applying it once |

## Left out

- Calendar arithmetic is not modelled: moment's time-zone offset, `locale('en')`, `diff`, `subtract` and `format`. `rangeOfPeriod` is not part of this model either. `GetQueryDate` works on integer period indices and takes the end of the current period as an input.
- `GetQueryDate`: the source returns a formatted `YYYY-MM-DD` string in one branch and `rangeOfPeriod`'s `endOf` value in the other. Both are one period index here. A non-integer quantity is not modelled. moment is not part of this model: for a zero quantity the model relies on moment's `subtract` leaving the date unchanged when the amount is `NaN`.
- `FormatDate`: only the choice of format is modelled, not the locale text (`LL`, `L`, `MMMM YYYY`, `YYYY`).
- The lodash `memoize` cache around the merge is left out. It keys on the identity of the first argument, which is process-wide state with no value-level counterpart.
- `MergeNonNull`: lodash `merge` recursion into nested objects is not modelled. Records are flat, and the order of fields inside a record is not kept.
- `MergeQueryResults`: lodash `merge` writes into the primary record objects of the caller's list, and into supplemental records that were stored by reference. The model returns new values. It does not capture that the caller's input objects are mutated (aliasing).
- `MergedSharedKey`: its field-level statement covers lists whose keys are unique. With repeated keys, `MergedRecord` states the general result: the last primary record for the key, with every supplemental record for that key merged in order.
- `MergedNewKey`: like `MergedSharedKey`, it assumes unique supplemental keys. Otherwise the first such record receives the later ones, as `MergedRecord` states.
- The routing and middleware plumbing is left out: `page.redirect`, `window.location.replace`, Redux dispatch and selectors, analytics, notices, `SITES_ONCE_CHANGED` listeners, the asynchronous `requestSite().then`, and React elements. This covers `siteSelection`, `navigation`, `sites`, `noSite`, `createNavigation` and the error renderers. Their store lookups enter the modelled rules as inputs.
- The domain-management path factories and `sectionify` are unseen imports. The factories are a function parameter (`PathFactory`). `SitesBasePath` takes the already-sectionified path.
- `client/me/pending-purchases/pending-item.jsx` (React presentation) and `client/lib/i18n/cli/util.js` (file reading) are not part of this model.
