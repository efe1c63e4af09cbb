/**
 * Which nodes a site release reaches and which nodes are told to drop the site.
 *
 * Releases are kept in the order they were saved.  Creation times increase strictly in that order;
 * a step carrying an older time is refused.  Each saved release is a step of its own: between the two
 * that `create_release` saves, the cleanup is owed, and the hub may be interrupted.
 */
module ReleaseTargeting {
  import opened Common
  import opened Sorting
  import opened Text

  datatype Kind = SiteScope | CleanupScope

  datatype Release = Release(kind: Kind, siteId: Uuid, targets: seq<Uuid>, createdAt: int, version: string)

  /** `releasable` stands for a configuration that validates and a domain that is not blank. */
  datatype SiteRecord = SiteRecord(siteCode: string, bound: seq<Uuid>, releasable: bool)

  /** A cleanup release that a running request has yet to save. */
  datatype Cleanup = Cleanup(siteId: Uuid, nodes: seq<Uuid>)

  datatype Hub = Hub(sites: map<Uuid, SiteRecord>, releases: seq<Release>, owed: multiset<Cleanup>)

  // ---------------------------------------------------------------- what a node serves

  /** The newest release that addresses `node` for `site` is a site release, not a cleanup. */
  predicate Serving(rs: seq<Release>, site: Uuid, node: Uuid) {
    rs != [] &&
    var r := rs[|rs| - 1];
    if r.siteId == site && node in r.targets then r.kind.SiteScope? else Serving(rs[..|rs| - 1], site, node)
  }

  /** The last site release saved for `site`. */
  function LastSiteRelease(rs: seq<Release>, site: Uuid): (r: Option<Release>)
    ensures r.Some? ==> r.value in rs && r.value.kind.SiteScope? && r.value.siteId == site
    ensures r.None? ==> forall x :: x in rs ==> !(x.kind.SiteScope? && x.siteId == site)
  {
    if rs == [] then None
    else if rs[|rs| - 1].kind.SiteScope? && rs[|rs| - 1].siteId == site then Some(rs[|rs| - 1])
    else LastSiteRelease(rs[..|rs| - 1], site)
  }

  predicate TargetOfLast(rs: seq<Release>, site: Uuid, node: Uuid) {
    LastSiteRelease(rs, site).Some? && node in LastSiteRelease(rs, site).value.targets
  }

  /** No node serves the site without being a target of its latest site release. */
  ghost predicate Targeted(rs: seq<Release>, site: Uuid) {
    forall n :: Serving(rs, site, n) ==> TargetOfLast(rs, site, n)
  }

  /** Every node serving the site is among `nodes`. */
  ghost predicate ServedOnlyBy(rs: seq<Release>, site: Uuid, nodes: seq<Uuid>) {
    forall n :: Serving(rs, site, n) ==> n in nodes
  }

  predicate Ordered(rs: seq<Release>) {
    forall i, j :: 0 <= i < j < |rs| ==> rs[i].createdAt < rs[j].createdAt
  }

  // ---------------------------------------------------------------- the hub's search for the previous release

  predicate NewerOrSame(a: Release, b: Release) {
    a.createdAt > b.createdAt || (a.createdAt == b.createdAt && LexLe(b.version, a.version))
  }

  function SiteReleases(rs: seq<Release>, site: Uuid): (r: seq<Release>)
    ensures forall x :: x in r <==> x in rs && x.kind.SiteScope? && x.siteId == site
  {
    if rs == [] then []
    else (if rs[0].kind.SiteScope? && rs[0].siteId == site then [rs[0]] else []) + SiteReleases(rs[1..], site)
  }

  /** Newest site release of a listing, by creation time and then by version text. */
  function PreviousRelease(listing: seq<Release>, site: Uuid): Option<Release> {
    if SiteReleases(listing, site) == [] then None
    else Some(FirstMin(SiteReleases(listing, site), NewerOrSame))
  }

  lemma NewerOrSameIsTotal()
    ensures TotalPreorder(NewerOrSame)
  {
    forall a: Release, b: Release ensures NewerOrSame(a, b) || NewerOrSame(b, a) {
      LexTotal(a.version, b.version);
    }
    forall a: Release, b: Release, c: Release | NewerOrSame(a, b) && NewerOrSame(b, c) ensures NewerOrSame(a, c) {
      if a.createdAt == b.createdAt == c.createdAt {
        LexTransitive(c.version, b.version, a.version);
      }
    }
  }

  lemma {:induction false} LastIsNewest(rs: seq<Release>, site: Uuid, x: Release)
    requires Ordered(rs) && x in rs && x.kind.SiteScope? && x.siteId == site
    ensures LastSiteRelease(rs, site).Some?
    ensures x == LastSiteRelease(rs, site).value || x.createdAt < LastSiteRelease(rs, site).value.createdAt
  {
    var n := |rs| - 1;
    if !(rs[n].kind.SiteScope? && rs[n].siteId == site) {
      assert x in rs[..n];
      LastIsNewest(rs[..n], site, x);
    }
  }

  /** The search finds the last saved site release, in whatever order the store lists the releases. */
  lemma PreviousReleaseIsLast(rs: seq<Release>, listing: seq<Release>, site: Uuid)
    requires Ordered(rs) && multiset(listing) == multiset(rs)
    ensures PreviousRelease(listing, site) == LastSiteRelease(rs, site)
  {
    forall x ensures x in listing <==> x in rs {
      assert x in multiset(listing) <==> x in multiset(rs);
    }
    var found := SiteReleases(listing, site);
    var last := LastSiteRelease(rs, site);
    assert last.Some? ==> last.value in found;
    if found != [] {
      var m := FirstMin(found, NewerOrSame);
      LastIsNewest(rs, site, m);
      NewerOrSameIsTotal();
      FirstMinIsLeast(found, NewerOrSame);
    }
  }

  predicate UuidLe(a: Uuid, b: Uuid) {
    a <= b
  }

  function Dedup(s: seq<Uuid>): (r: seq<Uuid>)
    ensures forall x :: x in r <==> x in s
  {
    if |s| < 2 then s
    else if s[0] == s[1] then Dedup(s[1..])
    else [s[0]] + Dedup(s[1..])
  }

  /** Targets of the previous site release that are no longer bound, sorted and without duplicates. */
  function DetachedNodeIds(listing: seq<Release>, site: Uuid, bound: seq<Uuid>): seq<Uuid> {
    match PreviousRelease(listing, site)
    case None => []
    case Some(r) => Dedup(Sort(Without(r.targets, bound), UuidLe))
  }

  lemma DetachedMembers(rs: seq<Release>, listing: seq<Release>, site: Uuid, bound: seq<Uuid>, n: Uuid)
    requires Ordered(rs) && multiset(listing) == multiset(rs)
    ensures n in DetachedNodeIds(listing, site, bound) <==> TargetOfLast(rs, site, n) && n !in bound
  {
    PreviousReleaseIsLast(rs, listing, site);
    match LastSiteRelease(rs, site)
    case None =>
    case Some(r) => SortMembers(Without(r.targets, bound), UuidLe, n);
  }

  lemma {:induction false} DedupIncreases(s: seq<Uuid>)
    requires SortedBy(s, UuidLe)
    ensures forall i, j :: 0 <= i < j < |Dedup(s)| ==> Dedup(s)[i] < Dedup(s)[j]
    ensures s != [] ==> Dedup(s) != [] && Dedup(s)[0] == s[0]
  {
    if |s| >= 2 {
      DedupIncreases(s[1..]);
      assert UuidLe(s[0], s[1]);
      var rest := Dedup(s[1..]);
      if s[0] != s[1] {
        forall j | 0 <= j < |rest| ensures s[0] < rest[j] {
          assert rest[0] == s[1] && (j > 0 ==> rest[0] < rest[j]);
        }
      }
    }
  }

  /** A cleanup addresses each detached node once, in a fixed order. */
  lemma DetachedIncreasing(listing: seq<Release>, site: Uuid, bound: seq<Uuid>)
    ensures var d := DetachedNodeIds(listing, site, bound); forall i, j :: 0 <= i < j < |d| ==> d[i] < d[j]
  {
    match PreviousRelease(listing, site)
    case None =>
    case Some(r) =>
      assert TotalPreorder(UuidLe);
      SortSorts(Without(r.targets, bound), UuidLe);
      DedupIncreases(Sort(Without(r.targets, bound), UuidLe));
  }

  // ---------------------------------------------------------------- create_release

  /** The versions the two saved releases carry; only their existence matters here. */
  datatype Stamp = Stamp(siteTime: int, siteVersion: string, cleanupTime: int, cleanupVersion: string)

  predicate Fresh(rs: seq<Release>, stamp: Stamp) {
    stamp.siteTime < stamp.cleanupTime && forall r :: r in rs ==> r.createdAt < stamp.siteTime
  }

  /** The first save of `create_release`: the releases after it, and the nodes a cleanup is owed to; `None` if refused. */
  function SaveSiteRelease(hub: Hub, site: Uuid, listing: seq<Release>, time: int, version: string): Option<(seq<Release>, seq<Uuid>)> {
    if site !in hub.sites then None
    else
      var record := hub.sites[site];
      var detached := DetachedNodeIds(listing, site, record.bound);
      if record.bound == [] && detached == [] then None
      else if record.bound != [] && !record.releasable then None
      else if record.bound == [] then Some((hub.releases, detached))
      else Some((hub.releases + [Release(SiteScope, site, record.bound, time, version)], detached))
  }

  /**
   * The releases after a whole `create_release`, and whether it succeeded.  A blank site code makes the
   * cleanup fail after the site release has already been saved.
   */
  function CreateRelease(hub: Hub, site: Uuid, listing: seq<Release>, stamp: Stamp): (seq<Release>, bool) {
    match SaveSiteRelease(hub, site, listing, stamp.siteTime, stamp.siteVersion)
    case None => (hub.releases, false)
    case Some((released, detached)) =>
      if detached == [] then (released, true)
      else if Blank(hub.sites[site].siteCode) then (released, false)
      else (released + [Release(CleanupScope, site, detached, stamp.cleanupTime, stamp.cleanupVersion)], true)
  }

  lemma ServingAppend(rs: seq<Release>, r: Release, site: Uuid, n: Uuid)
    ensures Serving(rs + [r], site, n) <==>
            if r.siteId == site && n in r.targets then r.kind.SiteScope? else Serving(rs, site, n)
    ensures LastSiteRelease(rs + [r], site) ==
            if r.kind.SiteScope? && r.siteId == site then Some(r) else LastSiteRelease(rs, site)
  {
    assert (rs + [r])[..|rs|] == rs;
  }

  /** After a successful `create_release` the nodes serving the site are exactly the bound ones. */
  lemma CreateReleaseServesBoundNodes(hub: Hub, site: Uuid, listing: seq<Release>, stamp: Stamp)
    requires Ordered(hub.releases) && multiset(listing) == multiset(hub.releases)
    requires Targeted(hub.releases, site)
    requires CreateRelease(hub, site, listing, stamp).1
    ensures forall n :: Serving(CreateRelease(hub, site, listing, stamp).0, site, n) <==> n in hub.sites[site].bound
    ensures Targeted(CreateRelease(hub, site, listing, stamp).0, site)
  {
    var record := hub.sites[site];
    var detached := DetachedNodeIds(listing, site, record.bound);
    var after := CreateRelease(hub, site, listing, stamp).0;
    forall n ensures Serving(after, site, n) <==> n in record.bound
             ensures Serving(after, site, n) ==> TargetOfLast(after, site, n)
    {
      DetachedMembers(hub.releases, listing, site, record.bound, n);
      var r := Release(SiteScope, site, record.bound, stamp.siteTime, stamp.siteVersion);
      var c := Release(CleanupScope, site, detached, stamp.cleanupTime, stamp.cleanupVersion);
      var released := if record.bound == [] then hub.releases else hub.releases + [r];
      ServingAppend(hub.releases, r, site, n);
      ServingAppend(released, c, site, n);
    }
  }

  /**
   * When `create_release` is accepted and when it succeeds: the site exists, a bound site is fit for release, and
   * there is a node to release to or to clean up; a cleanup needs a site code.  A refused request saves nothing,
   * an accepted one exactly one release for the bound nodes, if any, and one for the detached, if any.
   */
  lemma CreateReleaseIff(hub: Hub, site: Uuid, listing: seq<Release>, stamp: Stamp)
    requires Ordered(hub.releases) && multiset(listing) == multiset(hub.releases)
    ensures SaveSiteRelease(hub, site, listing, stamp.siteTime, stamp.siteVersion).Some? <==>
      && site in hub.sites
      && (hub.sites[site].bound != [] ==> hub.sites[site].releasable)
      && (hub.sites[site].bound == [] ==> exists n :: TargetOfLast(hub.releases, site, n))
    ensures SaveSiteRelease(hub, site, listing, stamp.siteTime, stamp.siteVersion).None? ==>
              CreateRelease(hub, site, listing, stamp) == (hub.releases, false)
    ensures SaveSiteRelease(hub, site, listing, stamp.siteTime, stamp.siteVersion).Some? ==>
      (CreateRelease(hub, site, listing, stamp).1 <==>
         !Blank(hub.sites[site].siteCode) || forall n :: TargetOfLast(hub.releases, site, n) ==> n in hub.sites[site].bound)
  {
    if site in hub.sites {
      var bound := hub.sites[site].bound;
      var detached := DetachedNodeIds(listing, site, bound);
      forall n ensures n in detached <==> TargetOfLast(hub.releases, site, n) && n !in bound {
        DetachedMembers(hub.releases, listing, site, bound, n);
      }
      if detached != [] {
        assert detached[0] in detached;
      }
    }
  }

  /** What an accepted `create_release` saves, release by release. */
  lemma CreateReleaseSaves(hub: Hub, site: Uuid, listing: seq<Release>, stamp: Stamp)
    requires CreateRelease(hub, site, listing, stamp).1
    ensures var after, bound := CreateRelease(hub, site, listing, stamp).0, hub.sites[site].bound;
      && hub.releases <= after
      && (forall r :: r in after[|hub.releases|..] ==> r.siteId == site)
      && (forall r :: r in after[|hub.releases|..] && r.kind.SiteScope? ==> r.targets == bound && bound != [] && r.createdAt == stamp.siteTime)
      && (bound != [] ==> |after| > |hub.releases| && after[|hub.releases|].kind.SiteScope?)
      && (forall r :: r in after[|hub.releases|..] && r.kind.CleanupScope? ==> r.targets == DetachedNodeIds(listing, site, bound))
      && |after| == |hub.releases| + (if bound == [] then 0 else 1) + (if DetachedNodeIds(listing, site, bound) == [] then 0 else 1)
  {
  }

  /** `create_release` never changes what nodes serve for another site. */
  lemma CreateReleaseLeavesOthers(hub: Hub, site: Uuid, listing: seq<Release>, stamp: Stamp, other: Uuid, n: Uuid)
    requires other != site
    ensures var after := CreateRelease(hub, site, listing, stamp).0;
      && (Serving(after, other, n) <==> Serving(hub.releases, other, n))
      && LastSiteRelease(after, other) == LastSiteRelease(hub.releases, other)
  {
    if site in hub.sites {
      var record := hub.sites[site];
      var r := Release(SiteScope, site, record.bound, stamp.siteTime, stamp.siteVersion);
      var c := Release(CleanupScope, site, DetachedNodeIds(listing, site, record.bound), stamp.cleanupTime, stamp.cleanupVersion);
      ServingAppend(hub.releases, r, other, n);
      ServingAppend(hub.releases, c, other, n);
      ServingAppend(hub.releases + [r], c, other, n);
    }
  }

  // ---------------------------------------------------------------- runs

  /** Removing a node strikes it from every release, as deleting the node row does. */
  function StrikeNode(rs: seq<Release>, node: Uuid): seq<Release> {
    seq(|rs|, i requires 0 <= i < |rs| => rs[i].(targets := Without(rs[i].targets, [node])))
  }

  predicate FreshTime(rs: seq<Release>, time: int) {
    forall r :: r in rs ==> r.createdAt < time
  }

  /** Some running request still owes `node` a cleanup for `site`. */
  ghost predicate Owed(owed: multiset<Cleanup>, site: Uuid, node: Uuid) {
    exists c :: c in owed && c.siteId == site && node in c.nodes
  }

  function AddOwed(owed: multiset<Cleanup>, site: Uuid, nodes: seq<Uuid>): multiset<Cleanup> {
    if nodes == [] then owed else owed + multiset{Cleanup(site, nodes)}
  }

  /**
   * `Publish` is the first save of `create_release`, on what the store holds at that moment; `PlainRelease`
   * is any other saved site release: enabling or disabling a site, a failover, or a publish whose reads are
   * out of date by the time it saves.
   */
  datatype Step =
    | Publish(site: Uuid, listing: seq<Release>, time: int, version: string)
    | SaveCleanup(cleanup: Cleanup, time: int, version: string)
    | Interrupt(cleanup: Cleanup)                                  // a crash or a store error before the cleanup is saved
    | PlainRelease(site: Uuid, targets: seq<Uuid>, detached: seq<Uuid>, time: int, version: string)
    | CleanUpForDeletion(site: Uuid, time: int, version: string)   // the first write of deleting a site
    | RemoveSite(site: Uuid)                                       // the second
    | Rebind(site: Uuid, nodes: seq<Uuid>)
    | Edit(site: Uuid, releasable: bool)
    | AddSite(site: Uuid, record: SiteRecord)
    | DropNode(node: Uuid)

  ghost function Next(hub: Hub, step: Step): Hub {
    match step
    case Publish(site, listing, time, version) =>
      if multiset(listing) != multiset(hub.releases) || !FreshTime(hub.releases, time) then hub
      else
        (match SaveSiteRelease(hub, site, listing, time, version)
         case None => hub
         case Some((released, detached)) =>
           hub.(releases := released,
                owed := if Blank(hub.sites[site].siteCode) then hub.owed else AddOwed(hub.owed, site, detached)))
    case SaveCleanup(c, time, version) =>
      if c !in hub.owed || !FreshTime(hub.releases, time) then hub
      else hub.(releases := hub.releases + [Release(CleanupScope, c.siteId, c.nodes, time, version)], owed := hub.owed - multiset{c})
    case Interrupt(c) => hub.(owed := hub.owed - multiset{c})
    case PlainRelease(site, targets, detached, time, version) =>
      if !FreshTime(hub.releases, time) then hub
      else hub.(releases := hub.releases + [Release(SiteScope, site, targets, time, version)], owed := AddOwed(hub.owed, site, detached))
    case CleanUpForDeletion(site, time, version) =>
      if site !in hub.sites || hub.sites[site].bound == [] || !FreshTime(hub.releases, time) then hub
      else hub.(releases := hub.releases + [Release(CleanupScope, site, hub.sites[site].bound, time, version)])
    case RemoveSite(site) => hub.(sites := hub.sites - {site})
    case Rebind(site, nodes) =>
      if site in hub.sites then hub.(sites := hub.sites[site := hub.sites[site].(bound := nodes)]) else hub
    case Edit(site, releasable) =>
      if site in hub.sites then hub.(sites := hub.sites[site := hub.sites[site].(releasable := releasable)]) else hub
    case AddSite(site, record) =>
      if site !in hub.sites && !Blank(record.siteCode) && record.bound == [] then hub.(sites := hub.sites[site := record]) else hub
    case DropNode(node) =>
      if forall s :: s in hub.sites ==> node !in hub.sites[s].bound
      then hub.(releases := StrikeNode(hub.releases, node)) else hub
  }

  ghost function Run(hub: Hub, steps: seq<Step>): Hub
    decreases |steps|
  {
    if steps == [] then hub else Run(Next(hub, steps[0]), steps[1..])
  }

  lemma PublishSaves(hub: Hub, site: Uuid, listing: seq<Release>, time: int, version: string)
    requires multiset(listing) == multiset(hub.releases) && FreshTime(hub.releases, time)
    requires site in hub.sites && !Blank(hub.sites[site].siteCode) && SaveSiteRelease(hub, site, listing, time, version).Some?
    ensures var saved := SaveSiteRelease(hub, site, listing, time, version).value;
      Next(hub, Publish(site, listing, time, version)) == hub.(releases := saved.0, owed := AddOwed(hub.owed, site, saved.1))
  {
  }

  /** Saving an owed cleanup settles it. */
  lemma CleanupSettles(hub: Hub, c: Cleanup, time: int, version: string)
    requires FreshTime(hub.releases, time)
    ensures Next(hub.(owed := hub.owed + multiset{c}), SaveCleanup(c, time, version))
         == hub.(releases := hub.releases + [Release(CleanupScope, c.siteId, c.nodes, time, version)])
  {
    assert hub.owed + multiset{c} - multiset{c} == hub.owed;
  }

  /** The steps that save no release: each changes its own site and nothing else. */
  lemma SiteSteps(hub: Hub, site: Uuid, nodes: seq<Uuid>, releasable: bool, record: SiteRecord)
    ensures site in hub.sites ==>
      && Next(hub, Rebind(site, nodes)) == hub.(sites := hub.sites[site := hub.sites[site].(bound := nodes)])
      && Next(hub, Edit(site, releasable)) == hub.(sites := hub.sites[site := hub.sites[site].(releasable := releasable)])
      && Next(hub, AddSite(site, record)) == hub
    ensures site !in hub.sites ==> Next(hub, Rebind(site, nodes)) == hub && Next(hub, Edit(site, releasable)) == hub
    ensures site !in hub.sites && Trim(record.siteCode) != [] && record.bound == [] ==>
              Next(hub, AddSite(site, record)) == hub.(sites := hub.sites[site := record])
    ensures Next(hub, RemoveSite(site)) == hub.(sites := hub.sites - {site})
  {
  }

  /** A node is deleted exactly when no site is bound to it, and then from every release. */
  lemma DropNodeIff(hub: Hub, node: Uuid)
    ensures (exists s :: s in hub.sites && node in hub.sites[s].bound) ==> Next(hub, DropNode(node)) == hub
    ensures !(exists s :: s in hub.sites && node in hub.sites[s].bound) ==>
              forall i :: 0 <= i < |hub.releases| ==> node !in Next(hub, DropNode(node)).releases[i].targets
    ensures |Next(hub, DropNode(node)).releases| == |hub.releases|
  {
  }

  /** A whole `create_release` is its two saves with nothing in between, or the first alone if nobody is detached. */
  lemma UndisturbedPublish(hub: Hub, site: Uuid, listing: seq<Release>, stamp: Stamp)
    requires multiset(listing) == multiset(hub.releases) && Fresh(hub.releases, stamp)
    requires site in hub.sites && !Blank(hub.sites[site].siteCode)
    requires SaveSiteRelease(hub, site, listing, stamp.siteTime, stamp.siteVersion).Some?
    ensures var detached := SaveSiteRelease(hub, site, listing, stamp.siteTime, stamp.siteVersion).value.1;
      var published := Next(hub, Publish(site, listing, stamp.siteTime, stamp.siteVersion));
      var whole := hub.(releases := CreateRelease(hub, site, listing, stamp).0);
      && (detached == [] ==> published == whole)
      && (detached != [] ==> Next(published, SaveCleanup(Cleanup(site, detached), stamp.cleanupTime, stamp.cleanupVersion)) == whole)
  {
    var saved := SaveSiteRelease(hub, site, listing, stamp.siteTime, stamp.siteVersion).value;
    PublishSaves(hub, site, listing, stamp.siteTime, stamp.siteVersion);
    CleanupSettles(hub.(releases := saved.0), Cleanup(site, saved.1), stamp.cleanupTime, stamp.cleanupVersion);
  }

  /** A node serving the site is a target of its latest site release, or a running request owes it a cleanup. */
  ghost predicate Covered(rs: seq<Release>, owed: multiset<Cleanup>, site: Uuid) {
    forall n :: Serving(rs, site, n) ==> TargetOfLast(rs, site, n) || Owed(owed, site, n)
  }

  ghost predicate CodesSet(hub: Hub) {
    forall s :: s in hub.sites ==> !Blank(hub.sites[s].siteCode)
  }

  ghost predicate AllCovered(hub: Hub) {
    forall s :: Covered(hub.releases, hub.owed, s)
  }

  /** Ordered releases and site codes that are not blank: every step keeps these. */
  ghost predicate WellFormed(hub: Hub) {
    Ordered(hub.releases) && CodesSet(hub)
  }

  lemma StepKeepsForm(hub: Hub, step: Step)
    requires WellFormed(hub)
    ensures WellFormed(Next(hub, step))
  {
  }

  lemma OwedAdd(owed: multiset<Cleanup>, site: Uuid, nodes: seq<Uuid>, s: Uuid, n: Uuid)
    ensures Owed(AddOwed(owed, site, nodes), s, n) <==> Owed(owed, s, n) || (s == site && n in nodes)
  {
    var owed' := AddOwed(owed, site, nodes);
    if nodes != [] {
      assert Cleanup(site, nodes) in owed';
      assert forall c :: c in owed' <==> c in owed || c == Cleanup(site, nodes);
    }
  }

  /** A saved site release covers its site exactly when every serving node is a target, detached, or owed a cleanup. */
  lemma SiteReleaseCoversIff(rs: seq<Release>, owed: multiset<Cleanup>, r: Release, detached: seq<Uuid>)
    requires r.kind.SiteScope?
    ensures Covered(rs + [r], AddOwed(owed, r.siteId, detached), r.siteId) <==>
            forall n :: Serving(rs, r.siteId, n) ==> n in r.targets || n in detached || Owed(owed, r.siteId, n)
  {
    var rs', owed' := rs + [r], AddOwed(owed, r.siteId, detached);
    forall n
      ensures Serving(rs', r.siteId, n) <==> n in r.targets || Serving(rs, r.siteId, n)
      ensures TargetOfLast(rs', r.siteId, n) <==> n in r.targets
      ensures Owed(owed', r.siteId, n) <==> Owed(owed, r.siteId, n) || n in detached
    {
      ServingAppend(rs, r, r.siteId, n);
      OwedAdd(owed, r.siteId, detached, r.siteId, n);
    }
  }

  /** A release for one site, and cleanups owed for it, change nothing for another. */
  lemma OtherSiteCoveredIff(rs: seq<Release>, owed: multiset<Cleanup>, r: Release, detached: seq<Uuid>, s: Uuid)
    requires s != r.siteId
    ensures Covered(rs + [r], AddOwed(owed, r.siteId, detached), s) <==> Covered(rs, owed, s)
  {
    forall n
      ensures Serving(rs + [r], s, n) <==> Serving(rs, s, n)
      ensures TargetOfLast(rs + [r], s, n) <==> TargetOfLast(rs, s, n)
      ensures Owed(AddOwed(owed, r.siteId, detached), s, n) <==> Owed(owed, s, n)
    {
      ServingAppend(rs, r, s, n);
      OwedAdd(owed, r.siteId, detached, s, n);
    }
  }

  lemma PlainReleaseCoversIff(hub: Hub, site: Uuid, targets: seq<Uuid>, detached: seq<Uuid>, time: int, version: string)
    requires AllCovered(hub)
    ensures AllCovered(Next(hub, PlainRelease(site, targets, detached, time, version)))
       <==> StepSafe(hub, PlainRelease(site, targets, detached, time, version))
  {
    if FreshTime(hub.releases, time) {
      var r := Release(SiteScope, site, targets, time, version);
      var hub' := Next(hub, PlainRelease(site, targets, detached, time, version));
      SiteReleaseCoversIff(hub.releases, hub.owed, r, detached);
      forall s | s != site ensures Covered(hub'.releases, hub'.owed, s) {
        OtherSiteCoveredIff(hub.releases, hub.owed, r, detached, s);
      }
      assert AllCovered(hub') <==> Covered(hub'.releases, hub'.owed, site);
    }
  }

  /** The first save of `create_release` owes a cleanup to exactly the nodes it stops covering. */
  lemma PublishKeepsCover(hub: Hub, site: Uuid, listing: seq<Release>, time: int, version: string)
    requires WellFormed(hub) && AllCovered(hub)
    ensures AllCovered(Next(hub, Publish(site, listing, time, version)))
  {
    var hub' := Next(hub, Publish(site, listing, time, version));
    if hub' != hub {
      var bound := hub.sites[site].bound;
      var detached := DetachedNodeIds(listing, site, bound);
      if bound == [] {
        forall s ensures Covered(hub'.releases, hub'.owed, s) {
          assert Covered(hub.releases, hub.owed, s);
          forall n | Serving(hub.releases, s, n) ensures TargetOfLast(hub.releases, s, n) || Owed(hub'.owed, s, n) {
            OwedAdd(hub.owed, site, detached, s, n);
          }
        }
      } else {
        forall n | Serving(hub.releases, site, n) ensures n in bound || n in detached || Owed(hub.owed, site, n) {
          assert Covered(hub.releases, hub.owed, site);
          DetachedMembers(hub.releases, listing, site, bound, n);
        }
        PlainReleaseCoversIff(hub, site, bound, detached, time, version);
        assert hub' == Next(hub, PlainRelease(site, bound, detached, time, version));
      }
    }
  }

  lemma SaveCleanupKeepsCover(hub: Hub, c: Cleanup, time: int, version: string)
    requires AllCovered(hub)
    ensures AllCovered(Next(hub, SaveCleanup(c, time, version)))
  {
    var r := Release(CleanupScope, c.siteId, c.nodes, time, version);
    var hub' := Next(hub, SaveCleanup(c, time, version));
    if hub' != hub {
      forall s, n | Serving(hub'.releases, s, n) ensures TargetOfLast(hub'.releases, s, n) || Owed(hub'.owed, s, n) {
        ServingAppend(hub.releases, r, s, n);
        assert Covered(hub.releases, hub.owed, s);
        if Owed(hub.owed, s, n) {
          var d :| d in hub.owed && d.siteId == s && n in d.nodes;
          assert d in hub'.owed;
        }
      }
    }
  }

  lemma CleanupKeepsCover(hub: Hub, r: Release)
    requires AllCovered(hub) && r.kind.CleanupScope?
    ensures AllCovered(hub.(releases := hub.releases + [r]))
  {
    forall s, n | Serving(hub.releases + [r], s, n) ensures TargetOfLast(hub.releases + [r], s, n) || Owed(hub.owed, s, n) {
      ServingAppend(hub.releases, r, s, n);
      assert Covered(hub.releases, hub.owed, s);
    }
  }

  lemma InterruptKeepsCoverIff(hub: Hub, c: Cleanup)
    requires AllCovered(hub)
    ensures AllCovered(Next(hub, Interrupt(c))) <==> StepSafe(hub, Interrupt(c))
  {
    var hub' := Next(hub, Interrupt(c));
    if StepSafe(hub, Interrupt(c)) {
      forall s, n | Serving(hub.releases, s, n) ensures TargetOfLast(hub.releases, s, n) || Owed(hub'.owed, s, n) {
        assert Covered(hub.releases, hub.owed, s);
        if Owed(hub.owed, s, n) && !(s == c.siteId && n in c.nodes) {
          var d :| d in hub.owed && d.siteId == s && n in d.nodes;
          assert d in hub'.owed;
        }
      }
    }
    if AllCovered(hub') {
      assert Covered(hub'.releases, hub'.owed, c.siteId);
    }
  }

  lemma StrikePrefix(rs: seq<Release>, node: Uuid, k: nat)
    requires k <= |rs|
    ensures StrikeNode(rs, node)[..k] == StrikeNode(rs[..k], node)
  {
  }

  lemma {:induction false} StrikeKeepsServing(rs: seq<Release>, node: Uuid, site: Uuid, n: Uuid)
    ensures Serving(StrikeNode(rs, node), site, n) <==> n != node && Serving(rs, site, n)
  {
    if rs != [] {
      StrikePrefix(rs, node, |rs| - 1);
      StrikeKeepsServing(rs[..|rs| - 1], node, site, n);
    }
  }

  lemma {:induction false} StrikeKeepsLast(rs: seq<Release>, node: Uuid, site: Uuid)
    ensures LastSiteRelease(StrikeNode(rs, node), site).Some? <==> LastSiteRelease(rs, site).Some?
    ensures LastSiteRelease(rs, site).Some? ==>
              LastSiteRelease(StrikeNode(rs, node), site).value.targets == Without(LastSiteRelease(rs, site).value.targets, [node])
  {
    if rs != [] {
      StrikePrefix(rs, node, |rs| - 1);
      StrikeKeepsLast(rs[..|rs| - 1], node, site);
    }
  }

  lemma StrikeKeepsTarget(rs: seq<Release>, node: Uuid, site: Uuid, n: Uuid)
    ensures TargetOfLast(StrikeNode(rs, node), site, n) <==> n != node && TargetOfLast(rs, site, n)
  {
    StrikeKeepsLast(rs, node, site);
  }

  lemma DropNodeKeepsCover(hub: Hub, node: Uuid)
    requires AllCovered(hub)
    ensures AllCovered(Next(hub, DropNode(node)))
  {
    var struck := StrikeNode(hub.releases, node);
    forall s, n | Serving(struck, s, n) ensures TargetOfLast(struck, s, n) || Owed(hub.owed, s, n) {
      StrikeKeepsServing(hub.releases, node, s, n);
      StrikeKeepsTarget(hub.releases, node, s, n);
      assert Covered(hub.releases, hub.owed, s);
    }
  }

  /** The guard of a step: which serving nodes it must not forget. */
  ghost predicate StepSafe(hub: Hub, step: Step) {
    match step
    case PlainRelease(site, targets, detached, time, _) =>
      FreshTime(hub.releases, time) ==>
        forall n :: Serving(hub.releases, site, n) ==> n in targets || n in detached || Owed(hub.owed, site, n)
    case Interrupt(c) =>
      forall n :: n in c.nodes && Serving(hub.releases, c.siteId, n) ==>
        TargetOfLast(hub.releases, c.siteId, n) || Owed(hub.owed - multiset{c}, c.siteId, n)
    case _ => true
  }

  /** One step keeps every serving node covered if and only if its guard holds. */
  lemma StepKeepsCoverIff(hub: Hub, step: Step)
    requires WellFormed(hub) && AllCovered(hub)
    ensures AllCovered(Next(hub, step)) <==> StepSafe(hub, step)
  {
    match step {
      case Publish(site, listing, time, version) => PublishKeepsCover(hub, site, listing, time, version);
      case SaveCleanup(c, time, version) => SaveCleanupKeepsCover(hub, c, time, version);
      case Interrupt(c) => InterruptKeepsCoverIff(hub, c);
      case PlainRelease(site, targets, detached, time, version) => PlainReleaseCoversIff(hub, site, targets, detached, time, version);
      case CleanUpForDeletion(site, time, version) =>
        if site in hub.sites {
          CleanupKeepsCover(hub, Release(CleanupScope, site, hub.sites[site].bound, time, version));
        }
      case DropNode(node) => DropNodeKeepsCover(hub, node);
      case _ => NoReleaseKeepsCover(hub, Next(hub, step));
    }
  }

  lemma NoReleaseKeepsCover(hub: Hub, hub': Hub)
    requires AllCovered(hub) && hub'.releases == hub.releases && hub'.owed == hub.owed
    ensures AllCovered(hub')
  {
    forall s ensures Covered(hub'.releases, hub'.owed, s) {
      assert Covered(hub.releases, hub.owed, s);
    }
  }

  ghost predicate AlwaysCovered(hub: Hub, steps: seq<Step>)
    decreases |steps|
  {
    AllCovered(hub) && (steps == [] || AlwaysCovered(Next(hub, steps[0]), steps[1..]))
  }

  ghost predicate AlwaysSafe(hub: Hub, steps: seq<Step>)
    decreases |steps|
  {
    steps == [] || (StepSafe(hub, steps[0]) && AlwaysSafe(Next(hub, steps[0]), steps[1..]))
  }

  /** Main theorem, both ways: a run keeps every serving node covered throughout if and only if every step meets its guard. */
  lemma {:induction false} RunCoveredIff(hub: Hub, steps: seq<Step>)
    requires WellFormed(hub) && AllCovered(hub)
    ensures AlwaysCovered(hub, steps) <==> AlwaysSafe(hub, steps)
    decreases |steps|
  {
    if steps != [] {
      StepKeepsCoverIff(hub, steps[0]);
      StepKeepsForm(hub, steps[0]);
      if AllCovered(Next(hub, steps[0])) {
        RunCoveredIff(Next(hub, steps[0]), steps[1..]);
      }
    }
  }

  /**
   * Main theorem: in every run whose site releases come from `create_release`, and in which every cleanup
   * begun is saved sooner or later, a node that still serves a site is a target of that site's latest site
   * release or about to be cleaned up; once no request is running it is a target.
   */
  lemma {:induction false} RunKeepsTargeting(hub: Hub, steps: seq<Step>)
    requires WellFormed(hub) && AllCovered(hub)
    requires forall i :: 0 <= i < |steps| ==> !steps[i].Interrupt? && !steps[i].PlainRelease?
    ensures WellFormed(Run(hub, steps)) && AllCovered(Run(hub, steps))
    ensures Run(hub, steps).owed == multiset{} ==> forall s :: Targeted(Run(hub, steps).releases, s)
    decreases |steps|
  {
    if steps == [] {
      forall s ensures hub.owed == multiset{} ==> Targeted(hub.releases, s) {
        assert Covered(hub.releases, hub.owed, s);
      }
    } else {
      StepKeepsCoverIff(hub, steps[0]);
      StepKeepsForm(hub, steps[0]);
      RunKeepsTargeting(Next(hub, steps[0]), steps[1..]);
    }
  }

  /**
   * `create_release` interrupted between its two saves is safe exactly when every serving node is bound:
   * then there was nothing to clean up.
   */
  lemma InterruptedPublishIff(hub: Hub, site: Uuid, listing: seq<Release>, time: int, version: string)
    requires WellFormed(hub) && Targeted(hub.releases, site) && multiset(listing) == multiset(hub.releases)
    requires site in hub.sites && hub.sites[site].bound != [] && hub.sites[site].releasable && FreshTime(hub.releases, time)
    ensures Targeted(Next(hub, Publish(site, listing, time, version)).releases, site)
       <==> ServedOnlyBy(hub.releases, site, hub.sites[site].bound)
  {
    PlainReleaseKeepsTargetingIff(hub.releases, site, hub.sites[site].bound, time, version);
  }

  // ---------------------------------------------------------------- targets that do not serve

  /** Every target of the latest site release of a site serves it. */
  ghost predicate AllServed(hub: Hub) {
    forall s, n :: TargetOfLast(hub.releases, s, n) ==> Serving(hub.releases, s, n)
  }

  /** Some node is a target of the latest site release of the site. */
  ghost predicate AddressesTarget(rs: seq<Release>, site: Uuid, nodes: seq<Uuid>) {
    exists n :: n in nodes && TargetOfLast(rs, site, n)
  }

  /** The guard for this: a saved cleanup, late or for a deletion, must not address a node published to since. */
  ghost predicate CleansNoTarget(hub: Hub, step: Step) {
    match step
    case SaveCleanup(c, time, _) =>
      c in hub.owed && FreshTime(hub.releases, time) ==> !AddressesTarget(hub.releases, c.siteId, c.nodes)
    case CleanUpForDeletion(site, time, _) =>
      site in hub.sites && FreshTime(hub.releases, time) ==> !AddressesTarget(hub.releases, site, hub.sites[site].bound)
    case _ => true
  }

  /** A cleanup release keeps every target serving exactly when it addresses none of them. */
  lemma CleanupServesIff(hub: Hub, r: Release, owed: multiset<Cleanup>)
    requires AllServed(hub) && r.kind.CleanupScope?
    ensures AllServed(hub.(releases := hub.releases + [r], owed := owed)) <==> !AddressesTarget(hub.releases, r.siteId, r.targets)
  {
    var rs' := hub.releases + [r];
    forall s, n
      ensures TargetOfLast(rs', s, n) <==> TargetOfLast(hub.releases, s, n)
      ensures Serving(rs', s, n) <==> Serving(hub.releases, s, n) && !(s == r.siteId && n in r.targets)
    {
      ServingAppend(hub.releases, r, s, n);
    }
    if n :| n in r.targets && TargetOfLast(hub.releases, r.siteId, n) {
      assert TargetOfLast(rs', r.siteId, n) && !Serving(rs', r.siteId, n);
    }
  }

  lemma SiteReleaseServes(hub: Hub, r: Release, owed: multiset<Cleanup>)
    requires AllServed(hub) && r.kind.SiteScope?
    ensures AllServed(hub.(releases := hub.releases + [r], owed := owed))
  {
    forall s, n | TargetOfLast(hub.releases + [r], s, n) ensures Serving(hub.releases + [r], s, n) {
      ServingAppend(hub.releases, r, s, n);
    }
  }

  lemma SaveCleanupServesIff(hub: Hub, c: Cleanup, time: int, version: string)
    requires AllServed(hub)
    ensures AllServed(Next(hub, SaveCleanup(c, time, version))) <==> CleansNoTarget(hub, SaveCleanup(c, time, version))
  {
    if c in hub.owed && FreshTime(hub.releases, time) {
      CleanupServesIff(hub, Release(CleanupScope, c.siteId, c.nodes, time, version), hub.owed - multiset{c});
    }
  }

  lemma DeletionServesIff(hub: Hub, site: Uuid, time: int, version: string)
    requires AllServed(hub)
    ensures AllServed(Next(hub, CleanUpForDeletion(site, time, version))) <==> CleansNoTarget(hub, CleanUpForDeletion(site, time, version))
  {
    if site in hub.sites && FreshTime(hub.releases, time) {
      CleanupServesIff(hub, Release(CleanupScope, site, hub.sites[site].bound, time, version), hub.owed);
    }
  }

  lemma DropNodeServes(hub: Hub, node: Uuid)
    requires AllServed(hub)
    ensures AllServed(Next(hub, DropNode(node)))
  {
    forall s, n | TargetOfLast(StrikeNode(hub.releases, node), s, n) ensures Serving(StrikeNode(hub.releases, node), s, n) {
      StruckTargetServes(hub.releases, node, s, n);
    }
  }

  lemma StruckTargetServes(rs: seq<Release>, node: Uuid, s: Uuid, n: Uuid)
    requires TargetOfLast(rs, s, n) ==> Serving(rs, s, n)
    ensures TargetOfLast(StrikeNode(rs, node), s, n) ==> Serving(StrikeNode(rs, node), s, n)
  {
    StrikeKeepsServing(rs, node, s, n);
    StrikeKeepsTarget(rs, node, s, n);
  }

  lemma PublishServes(hub: Hub, site: Uuid, listing: seq<Release>, time: int, version: string)
    requires AllServed(hub)
    ensures AllServed(Next(hub, Publish(site, listing, time, version)))
  {
    var hub' := Next(hub, Publish(site, listing, time, version));
    if hub'.releases != hub.releases {
      SiteReleaseServes(hub, Release(SiteScope, site, hub.sites[site].bound, time, version), hub'.owed);
    }
  }

  lemma StepServesIff(hub: Hub, step: Step)
    requires AllServed(hub)
    ensures AllServed(Next(hub, step)) <==> CleansNoTarget(hub, step)
  {
    match step {
      case Publish(site, listing, time, version) => PublishServes(hub, site, listing, time, version);
      case SaveCleanup(c, time, version) => SaveCleanupServesIff(hub, c, time, version);
      case PlainRelease(site, targets, detached, time, version) =>
        if FreshTime(hub.releases, time) {
          SiteReleaseServes(hub, Release(SiteScope, site, targets, time, version), AddOwed(hub.owed, site, detached));
        }
      case CleanUpForDeletion(site, time, version) => DeletionServesIff(hub, site, time, version);
      case DropNode(node) => DropNodeServes(hub, node);
      case _ =>
    }
  }

  ghost predicate AlwaysServed(hub: Hub, steps: seq<Step>)
    decreases |steps|
  {
    AllServed(hub) && (steps == [] || AlwaysServed(Next(hub, steps[0]), steps[1..]))
  }

  ghost predicate AlwaysCleansNoTarget(hub: Hub, steps: seq<Step>)
    decreases |steps|
  {
    steps == [] || (CleansNoTarget(hub, steps[0]) && AlwaysCleansNoTarget(Next(hub, steps[0]), steps[1..]))
  }

  /** A run keeps every target serving throughout if and only if no cleanup is saved for a node published to since. */
  lemma {:induction false} RunServedIff(hub: Hub, steps: seq<Step>)
    requires AllServed(hub)
    ensures AlwaysServed(hub, steps) <==> AlwaysCleansNoTarget(hub, steps)
    ensures AlwaysCleansNoTarget(hub, steps) ==> AllServed(Run(hub, steps))
    decreases |steps|
  {
    if steps != [] {
      StepServesIff(hub, steps[0]);
      if AllServed(Next(hub, steps[0])) {
        RunServedIff(Next(hub, steps[0]), steps[1..]);
      }
    }
  }

  lemma {:induction false} SafeRunIsCovered(hub: Hub, steps: seq<Step>)
    requires WellFormed(hub) && AllCovered(hub) && AlwaysSafe(hub, steps)
    ensures AllCovered(Run(hub, steps))
    decreases |steps|
  {
    if steps != [] {
      StepKeepsCoverIff(hub, steps[0]);
      StepKeepsForm(hub, steps[0]);
      SafeRunIsCovered(Next(hub, steps[0]), steps[1..]);
    }
  }

  /**
   * Main theorem: after a run that meets both guards, and with no cleanup owed, the nodes serving a site are
   * exactly the targets of its latest site release.
   */
  lemma ServingIsTargeted(hub: Hub, steps: seq<Step>, site: Uuid, n: Uuid)
    requires WellFormed(hub) && AllCovered(hub) && AllServed(hub)
    requires AlwaysSafe(hub, steps) && AlwaysCleansNoTarget(hub, steps) && Run(hub, steps).owed == multiset{}
    ensures Serving(Run(hub, steps).releases, site, n) <==> TargetOfLast(Run(hub, steps).releases, site, n)
  {
    SafeRunIsCovered(hub, steps);
    RunServedIff(hub, steps);
    assert Covered(Run(hub, steps).releases, Run(hub, steps).owed, site);
  }

  // ---------------------------------------------------------------- releases saved outside create_release

  /**
   * Enabling or disabling a site, and the failover worker, save a site release to `targets` without
   * looking for detached nodes.  That is safe exactly when every serving node is among the targets.
   */
  lemma PlainReleaseKeepsTargetingIff(rs: seq<Release>, site: Uuid, targets: seq<Uuid>, time: int, version: string)
    ensures Targeted(rs + [Release(SiteScope, site, targets, time, version)], site)
       <==> ServedOnlyBy(rs, site, targets)
  {
    var r := Release(SiteScope, site, targets, time, version);
    forall n ensures Serving(rs + [r], site, n) <==> n in targets || Serving(rs, site, n)
             ensures TargetOfLast(rs + [r], site, n) <==> n in targets
    {
      ServingAppend(rs, r, site, n);
    }
    if Targeted(rs + [r], site) {
      forall n | Serving(rs, site, n) ensures n in targets {
        assert Serving(rs + [r], site, n);
      }
    }
  }

  /** Deleting a site cleans up its bound nodes only, which stops every node exactly when all serving nodes are bound. */
  lemma DeleteSiteStopsServingIff(rs: seq<Release>, site: Uuid, bound: seq<Uuid>, time: int, version: string)
    ensures ServedOnlyBy(rs + [Release(CleanupScope, site, bound, time, version)], site, [])
       <==> ServedOnlyBy(rs, site, bound)
  {
    var c := Release(CleanupScope, site, bound, time, version);
    forall n ensures Serving(rs + [c], site, n) <==> n !in bound && Serving(rs, site, n) {
      ServingAppend(rs, c, site, n);
    }
    if ServedOnlyBy(rs + [c], site, []) {
      forall n | Serving(rs, site, n) ensures n in bound {
        assert Serving(rs + [c], site, n) ==> n in [];
      }
    }
  }

  /** Steps that neither bind `n` to `site` again, nor address it there, nor delete it. */
  predicate LeavesStranded(step: Step, site: Uuid, n: Uuid) {
    match step
    case Rebind(s, nodes) => s != site || n !in nodes
    case PlainRelease(s, targets, detached, _, _) => s != site || (n !in targets && n !in detached)
    case DropNode(node) => node != n
    case _ => true
  }

  /** `n` serves the site, and nothing in the hub remembers that it does. */
  ghost predicate Stranded(hub: Hub, site: Uuid, n: Uuid) {
    && Ordered(hub.releases)
    && Serving(hub.releases, site, n)
    && !TargetOfLast(hub.releases, site, n)
    && !Owed(hub.owed, site, n)
    && (site in hub.sites ==> n !in hub.sites[site].bound)
  }

  /** A release that does not address `n` for the site, saved with cleanups not owed to it, leaves `n` stranded. */
  lemma ReleaseKeepsStranded(hub: Hub, r: Release, detached: seq<Uuid>, site: Uuid, n: Uuid)
    requires Stranded(hub, site, n) && FreshTime(hub.releases, r.createdAt)
    requires r.siteId == site ==> n !in r.targets && n !in detached
    ensures Stranded(hub.(releases := hub.releases + [r], owed := AddOwed(hub.owed, r.siteId, detached)), site, n)
  {
    ServingAppend(hub.releases, r, site, n);
    OwedAdd(hub.owed, r.siteId, detached, site, n);
  }

  lemma PublishKeepsStranded(hub: Hub, site: Uuid, n: Uuid, target: Uuid, listing: seq<Release>, time: int, version: string)
    requires Stranded(hub, site, n)
    ensures Stranded(Next(hub, Publish(target, listing, time, version)), site, n)
  {
    var hub' := Next(hub, Publish(target, listing, time, version));
    if hub' != hub {
      var bound := hub.sites[target].bound;
      var r := Release(SiteScope, target, bound, time, version);
      var detached := DetachedNodeIds(listing, target, bound);
      var owed := if Blank(hub.sites[target].siteCode) then [] else detached;
      if target == site {
        DetachedMembers(hub.releases, listing, site, bound, n);
      }
      if bound == [] {
        OwedAdd(hub.owed, target, owed, site, n);
      } else {
        ReleaseKeepsStranded(hub, r, owed, site, n);
      }
    }
  }

  lemma SaveCleanupKeepsStranded(hub: Hub, c: Cleanup, time: int, version: string, site: Uuid, n: Uuid)
    requires Stranded(hub, site, n)
    ensures Stranded(Next(hub, SaveCleanup(c, time, version)), site, n)
  {
    ServingAppend(hub.releases, Release(CleanupScope, c.siteId, c.nodes, time, version), site, n);
  }

  lemma StepKeepsStranded(hub: Hub, step: Step, site: Uuid, n: Uuid)
    requires Stranded(hub, site, n) && LeavesStranded(step, site, n)
    ensures Stranded(Next(hub, step), site, n)
  {
    match step {
      case Publish(target, listing, time, version) => PublishKeepsStranded(hub, site, n, target, listing, time, version);
      case SaveCleanup(c, time, version) => SaveCleanupKeepsStranded(hub, c, time, version, site, n);
      case PlainRelease(s, targets, detached, time, version) =>
        if FreshTime(hub.releases, time) {
          ReleaseKeepsStranded(hub, Release(SiteScope, s, targets, time, version), detached, site, n);
        }
      case CleanUpForDeletion(s, time, version) =>
        if Next(hub, step) != hub {
          ReleaseKeepsStranded(hub, Release(CleanupScope, s, hub.sites[s].bound, time, version), [], site, n);
        }
      case DropNode(node) =>
        StrikeKeepsServing(hub.releases, node, site, n);
        StrikeKeepsTarget(hub.releases, node, site, n);
      case _ =>
    }
  }

  /**
   * Once a node is missed, nothing finds it again: not a later publish, not the deletion of the site.  It
   * serves the site until it is bound again, addressed by chance, or deleted.
   */
  lemma {:induction false} StrandedForever(hub: Hub, steps: seq<Step>, site: Uuid, n: Uuid)
    requires Stranded(hub, site, n)
    requires forall i :: 0 <= i < |steps| ==> LeavesStranded(steps[i], site, n)
    ensures Stranded(Run(hub, steps), site, n)
    decreases |steps|
  {
    if steps != [] {
      StepKeepsStranded(hub, steps[0], site, n);
      StrandedForever(Next(hub, steps[0]), steps[1..], site, n);
    }
  }

  /** A site published to `a` and `b`, from which `b` has been unbound since. */
  function Unbound(site: Uuid, a: Uuid, b: Uuid): Hub {
    Hub(map[site := SiteRecord("code", [a], true)], [Release(SiteScope, site, [a, b], 1, "v1")], multiset{})
  }

  lemma UnboundIsServed(site: Uuid, a: Uuid, b: Uuid, n: Uuid)
    ensures var rs := Unbound(site, a, b).releases;
      && (Serving(rs, site, n) <==> n == a || n == b)
      && (TargetOfLast(rs, site, n) <==> n == a || n == b)
  {
    var rs := Unbound(site, a, b).releases;
    assert rs[..0] == [];
  }

  /** Disabling the site strands the node. */
  lemma DisableStrandsUnboundNode(site: Uuid, a: Uuid, b: Uuid)
    requires a != b
    ensures Targeted(Unbound(site, a, b).releases, site)
    ensures Stranded(Next(Unbound(site, a, b), PlainRelease(site, [a], [], 2, "v2")), site, b)
  {
    var hub := Unbound(site, a, b);
    forall n ensures Serving(hub.releases, site, n) ==> TargetOfLast(hub.releases, site, n) {
      UnboundIsServed(site, a, b, n);
    }
    UnboundIsServed(site, a, b, b);
    ServingAppend(hub.releases, Release(SiteScope, site, [a], 2, "v2"), site, b);
  }

  /** So does a `create_release` that is interrupted after its first save. */
  lemma InterruptStrandsUnboundNode(site: Uuid, a: Uuid, b: Uuid)
    requires a != b
    ensures var hub := Unbound(site, a, b);
      Stranded(Next(Next(hub, Publish(site, hub.releases, 2, "v2")), Interrupt(Cleanup(site, [b]))), site, b)
  {
    var hub := Unbound(site, a, b);
    UnboundIsDetached(site, a, b);
    PublishSaves(hub, site, hub.releases, 2, "v2");
    var hub' := Next(hub, Publish(site, hub.releases, 2, "v2"));
    assert hub' == Next(hub, PlainRelease(site, [a], [], 2, "v2")).(owed := multiset{Cleanup(site, [b])});
    assert Next(hub', Interrupt(Cleanup(site, [b]))).owed == multiset{};
    DisableStrandsUnboundNode(site, a, b);
  }

  lemma UnboundIsDetached(site: Uuid, a: Uuid, b: Uuid)
    requires a != b
    ensures DetachedNodeIds(Unbound(site, a, b).releases, site, [a]) == [b]
  {
    var rs := Unbound(site, a, b).releases;
    forall n ensures n in DetachedNodeIds(rs, site, [a]) <==> n == b {
      UnboundIsServed(site, a, b, n);
      DetachedMembers(rs, rs, site, [a], n);
    }
    DetachedIncreasing(rs, site, [a]);
    OnlyMember(DetachedNodeIds(rs, site, [a]), b);
  }

  lemma OnlyMember(s: seq<Uuid>, x: Uuid)
    requires forall i, j :: 0 <= i < j < |s| ==> s[i] < s[j]
    requires forall n :: n in s <==> n == x
    ensures s == [x]
  {
    assert x in s;
    assert s[0] in s && s[|s| - 1] in s;
  }

  /** Deleting the site leaves the node serving a site that no longer exists. */
  lemma DeleteStrandsUnboundNode(site: Uuid, a: Uuid, b: Uuid)
    requires a != b
    ensures var hub := Next(Next(Unbound(site, a, b), CleanUpForDeletion(site, 2, "v2")), RemoveSite(site));
      site !in hub.sites && Serving(hub.releases, site, b) && !ServedOnlyBy(hub.releases, site, [])
  {
    var hub := Unbound(site, a, b);
    UnboundIsServed(site, a, b, b);
    ServingAppend(hub.releases, Release(CleanupScope, site, [a], 2, "v2"), site, b);
  }

  /** The hub after `b` was unbound, the site published, `b` bound again and the site published once more. */
  function Republished(site: Uuid, a: Uuid, b: Uuid): Hub {
    Hub(map[site := SiteRecord("code", [a, b], true)],
        Unbound(site, a, b).releases + [Release(SiteScope, site, [a], 2, "v2")] + [Release(SiteScope, site, [a, b], 3, "v3")],
        multiset{Cleanup(site, [b])})
  }

  lemma RepublishedIsReached(site: Uuid, a: Uuid, b: Uuid)
    requires a != b
    ensures var hub := Unbound(site, a, b);
      var bound := Next(Next(hub, Publish(site, hub.releases, 2, "v2")), Rebind(site, [a, b]));
      Next(bound, Publish(site, bound.releases, 3, "v3")) == Republished(site, a, b)
  {
    var hub := Unbound(site, a, b);
    UnboundIsDetached(site, a, b);
    PublishSaves(hub, site, hub.releases, 2, "v2");
    var r2 := Release(SiteScope, site, [a], 2, "v2");
    var bound := Next(Next(hub, Publish(site, hub.releases, 2, "v2")), Rebind(site, [a, b]));
    assert bound == Hub(map[site := SiteRecord("code", [a, b], true)], hub.releases + [r2], multiset{Cleanup(site, [b])});
    RepublishDetachesNobody(bound, site, a, b, r2);
    PublishSaves(bound, site, bound.releases, 3, "v3");
  }

  /** A late cleanup: the node is bound again and published to before it is saved, and loses the site all the same. */
  lemma LateCleanupStopsBoundNode(site: Uuid, a: Uuid, b: Uuid)
    requires a != b
    ensures var late := Next(Republished(site, a, b), SaveCleanup(Cleanup(site, [b]), 4, "v4"));
      && late.owed == multiset{} && b in late.sites[site].bound
      && TargetOfLast(late.releases, site, b) && !Serving(late.releases, site, b)
  {
    var again := Republished(site, a, b);
    var c := Release(CleanupScope, site, [b], 4, "v4");
    assert Next(again, SaveCleanup(Cleanup(site, [b]), 4, "v4")) == again.(releases := again.releases + [c], owed := multiset{});
    ServingAppend(Unbound(site, a, b).releases + [Release(SiteScope, site, [a], 2, "v2")], Release(SiteScope, site, [a, b], 3, "v3"), site, b);
    ServingAppend(again.releases, c, site, b);
  }

  lemma RepublishDetachesNobody(hub: Hub, site: Uuid, a: Uuid, b: Uuid, last: Release)
    requires |hub.releases| == 2 && hub.releases[1] == last && Ordered(hub.releases)
    requires last.kind.SiteScope? && last.siteId == site && last.targets == [a]
    ensures DetachedNodeIds(hub.releases, site, [a, b]) == []
  {
    var rs := hub.releases;
    var detached := DetachedNodeIds(rs, site, [a, b]);
    assert detached == [] || detached[0] in detached;
    forall n ensures n !in detached {
      DetachedMembers(rs, rs, site, [a, b], n);
    }
  }
}
