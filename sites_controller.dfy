/** The decision rules of the My Sites route controller, apart from the
    middleware that dispatches to the store and redirects: the recent-sites
    preference, the pages a domain-only site may open, the Jetpack module
    gate and the site picker's base path. Store lookups arrive as inputs. */
module SitesController {
  import opened Wrappers
  import opened Sequences

  type SiteId = int

  // ---------------------------------------------------------------------
  // Recent sites
  // ---------------------------------------------------------------------

  /** How many sites the recent-sites preference keeps. */
  const MAX_RECENT_SITES: nat := 5

  /** The predicate "is known in the local state". */
  function IsKnown(known: set<SiteId>): SiteId -> bool {
    id => id in known
  }

  /** `uniq([selected, ...recentSites]).slice(0, 5)`: the selected site
      first, then earlier recent sites, each once, at most five. */
  function RecentCandidates(selected: SiteId, recentSites: seq<SiteId>): (candidates: seq<SiteId>)
    ensures Distinct(candidates)
    ensures |candidates| <= MAX_RECENT_SITES
    ensures candidates != [] && candidates[0] == selected
    ensures forall id :: id in candidates ==> id == selected || id in recentSites
  {
    var unique := Dedup([selected] + recentSites);
    TakeDistinct(unique, MAX_RECENT_SITES);
    DedupHead([selected] + recentSites);
    var candidates := Take(unique, MAX_RECENT_SITES);
    assert forall i :: 0 <= i < |candidates| ==> candidates[i] in [selected] + recentSites;
    candidates
  }

  /** The new recent-sites list: the selected site first, no repeats, at most
      five, and only sites known in the local state. */
  function UpdatedRecentSites(selected: SiteId, recentSites: seq<SiteId>, known: set<SiteId>): (r: seq<SiteId>)
    ensures Distinct(r)
    ensures |r| <= MAX_RECENT_SITES
    ensures forall id :: id in r ==> id in known
    ensures IsSubsequence(r, RecentCandidates(selected, recentSites))
    ensures forall id :: id in r <==> id in RecentCandidates(selected, recentSites) && id in known
    ensures selected in known ==> r != [] && r[0] == selected
  {
    var candidates := RecentCandidates(selected, recentSites);
    FilterDistinct(candidates, IsKnown(known));
    FilterIsSubsequence(candidates, IsKnown(known));
    Filter(candidates, IsKnown(known))
  }

  lemma TakeDistinct(xs: seq<SiteId>, n: nat)
    requires Distinct(xs)
    ensures Distinct(Take(xs, n))
  {
  }

  /** The preference to save, if any: only once remote preferences have
      arrived, and only when the selected site is not already the most
      recent one. */
  function RecentSitesToSave(preferencesReceived: bool, selected: SiteId, recentSites: seq<SiteId>,
                             known: set<SiteId>): (r: Option<seq<SiteId>>)
    ensures r.Some? <==> preferencesReceived && (recentSites == [] || recentSites[0] != selected)
    ensures r.Some? ==> r.value == UpdatedRecentSites(selected, recentSites, known)
  {
    if !preferencesReceived then None
    else if recentSites != [] && selected == recentSites[0] then None
    else Some(UpdatedRecentSites(selected, recentSites, known))
  }

  /** An update changes the list: when saving, the selected site (if known)
      becomes the head, where it was not before. */
  lemma SavedListHasNewHead(selected: SiteId, recentSites: seq<SiteId>, known: set<SiteId>)
    requires selected in known
    requires recentSites == [] || recentSites[0] != selected
    ensures var r := RecentSitesToSave(true, selected, recentSites, known);
      r.Some? && r.value != recentSites && r.value[0] == selected
  {
  }

  // ---------------------------------------------------------------------
  // Pages a domain-only site may open
  // ---------------------------------------------------------------------

  /** The domain-management pages, one per path factory. */
  datatype ManagementPage =
    | AddGoogleApps | ContactsPrivacy | Dns | Edit | EditContactInfo | Email | EmailForwarding
    | List | NameServers | PrivacyProtection | RedirectSettings | Transfer | TransferOut
    | TransferToOtherSite

  const MANAGEMENT_PAGES: seq<ManagementPage> := [
    AddGoogleApps, ContactsPrivacy, Dns, Edit, EditContactInfo, Email, EmailForwarding,
    List, NameServers, PrivacyProtection, RedirectSettings, Transfer, TransferOut,
    TransferToOtherSite]

  /** The path factories: page, site slug and domain name to a path. */
  type PathFactory = (ManagementPage, string, string) -> string

  datatype Domain = Domain(name: string)

  lemma AllManagementPages(page: ManagementPage)
    ensures page in MANAGEMENT_PAGES
  {
  }

  /** Every page's path for one site slug and domain name. */
  function PagePaths(pathOf: PathFactory, slug: string, domainName: string): (paths: seq<string>)
    ensures |paths| == |MANAGEMENT_PAGES|
    ensures forall p :: p in paths <==> exists page :: p == pathOf(page, slug, domainName)
  {
    var paths := seq(|MANAGEMENT_PAGES|, i requires 0 <= i < |MANAGEMENT_PAGES| => pathOf(MANAGEMENT_PAGES[i], slug, domainName));
    assert forall page :: pathOf(page, slug, domainName) in paths by {
      forall page ensures pathOf(page, slug, domainName) in paths {
        AllManagementPages(page);
        var i :| 0 <= i < |MANAGEMENT_PAGES| && MANAGEMENT_PAGES[i] == page;
        assert paths[i] == pathOf(page, slug, domainName);
      }
    }
    paths
  }

  /** Whether the primary domain adds a second set of paths. */
  predicate HasDistinctPrimaryDomain(slug: string, primaryDomain: Option<Domain>) {
    primaryDomain.Some? && slug != primaryDomain.value.name
  }

  /** The management paths under the slug, plus under the primary domain's
      name when that differs from the slug. */
  function DomainManagementPaths(pathOf: PathFactory, slug: string, primaryDomain: Option<Domain>): (paths: seq<string>)
    ensures |paths| == if HasDistinctPrimaryDomain(slug, primaryDomain) then 2 * |MANAGEMENT_PAGES| else |MANAGEMENT_PAGES|
    ensures forall p :: p in paths <==>
      || (exists page :: p == pathOf(page, slug, slug))
      || (HasDistinctPrimaryDomain(slug, primaryDomain) && exists page :: p == pathOf(page, slug, primaryDomain.value.name))
  {
    var paths := PagePaths(pathOf, slug, slug);
    if HasDistinctPrimaryDomain(slug, primaryDomain) then paths + PagePaths(pathOf, slug, primaryDomain.value.name)
    else paths
  }

  /** lodash `startsWith(s, prefix)` */
  function StartsWith(s: string, prefix: string): (b: bool)
    ensures b <==> |prefix| <= |s| && s[..|prefix|] == prefix
  {
    prefix <= s
  }

  /** Checkout and the site's purchases are always open; otherwise only the
      domain-management pages of the site are. */
  function IsPathAllowedForDomainOnlySite(path: string, slug: string, primaryDomain: Option<Domain>,
                                         pathOf: PathFactory): (allowed: bool)
    ensures StartsWith(path, "/checkout/") ==> allowed
    ensures StartsWith(path, "/me/purchases/" + slug) ==> allowed
    ensures !StartsWith(path, "/checkout/") && !StartsWith(path, "/me/purchases/" + slug) ==>
      (allowed <==>
        || (exists page :: path == pathOf(page, slug, slug))
        || (HasDistinctPrimaryDomain(slug, primaryDomain) && exists page :: path == pathOf(page, slug, primaryDomain.value.name)))
  {
    var startsWithPaths := ["/checkout/", "/me/purchases/" + slug];
    assert startsWithPaths[0] == "/checkout/" && startsWithPaths[1] == "/me/purchases/" + slug;
    if exists i :: 0 <= i < |startsWithPaths| && StartsWith(path, startsWithPaths[i]) then true
    else path in DomainManagementPaths(pathOf, slug, primaryDomain)
  }

  /** A primary domain named like the slug adds nothing. */
  lemma PrimaryDomainNamedAsSlug(path: string, slug: string, pathOf: PathFactory)
    ensures IsPathAllowedForDomainOnlySite(path, slug, Some(Domain(slug)), pathOf)
         == IsPathAllowedForDomainOnlySite(path, slug, None, pathOf)
  {
  }
  /** Outcome of `onSelectedSiteAvailable`: whether routing continues, and the
      recent-sites preference it saves. */
  datatype Selection = Selection(complete: bool, savedRecentSites: Option<seq<SiteId>>)

  /** A domain-only site may only open the allowed paths; otherwise the
      recent-sites preference is updated. `known` is the set of sites in the
      state snapshot taken when the middleware starts, before the selected
      site is received. */
  function OnSelectedSiteAvailable(path: string, isDomainOnly: bool, slug: string, primaryDomain: Option<Domain>,
                                   pathOf: PathFactory, preferencesReceived: bool,
                                   selected: SiteId, recentSites: seq<SiteId>, known: set<SiteId>): (r: Selection)
    ensures !r.complete <==> isDomainOnly && !IsPathAllowedForDomainOnlySite(path, slug, primaryDomain, pathOf)
    ensures isDomainOnly && StartsWith(path, "/checkout/") ==> r.complete
    ensures !r.complete ==> r.savedRecentSites == None
    ensures r.complete ==> r.savedRecentSites == RecentSitesToSave(preferencesReceived, selected, recentSites, known)
  {
    if isDomainOnly && !IsPathAllowedForDomainOnlySite(path, slug, primaryDomain, pathOf) then Selection(false, None)
    else Selection(true, RecentSitesToSave(preferencesReceived, selected, recentSites, known))
  }


  // ---------------------------------------------------------------------
  // Jetpack module gate
  // ---------------------------------------------------------------------

  /** The `redirect` argument: `false`, a path, or anything else (omitted,
      `true`, a non-string value). */
  datatype RedirectArg = RedirectFalse | RedirectPath(path: string) | RedirectOther

  /** Go on to the next handler, or redirect. */
  datatype Gate = Next | RedirectTo(path: string)

  function JetpackModuleActive(isJetpack: bool, isModuleActive: bool, redirect: RedirectArg): (r: Gate)
    ensures !isJetpack ==> r == Next
    ensures isJetpack ==> (r == Next <==> isModuleActive || redirect == RedirectFalse)
    ensures r.RedirectTo? ==> r.path == match redirect
      case RedirectPath(p) => p
      case _ => "/stats"
  {
    if !isJetpack then Next
    else if isModuleActive || redirect == RedirectFalse then Next
    else RedirectTo(if redirect.RedirectPath? then redirect.path else "/stats")
  }

  // ---------------------------------------------------------------------
  // Site picker base path
  // ---------------------------------------------------------------------

  /** Where the site picker sends a selection: the all-sites list leads to
      stats, every other section to itself. `sectionPath` is the request path
      with the site fragment removed. */
  function SitesBasePath(sectionPath: string): (basePath: string)
    ensures basePath != "/sites"
    ensures sectionPath == "/sites" ==> basePath == "/stats"
    ensures sectionPath != "/sites" ==> basePath == sectionPath
  {
    if sectionPath == "/sites" then "/stats" else sectionPath
  }

  /** Applying the rule again changes nothing. */
  lemma SitesBasePathIdempotent(sectionPath: string)
    ensures SitesBasePath(SitesBasePath(sectionPath)) == SitesBasePath(sectionPath)
  {
  }
}
