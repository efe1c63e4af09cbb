/**
 * The in-memory repository: primary records, and the indexes kept beside them.
 *
 * `saved` is the order in which releases were saved, an overwritten one once for each save.
 */
module Repository {
  import opened Common
  import opened ReleaseStatus
  import opened ReleaseVersion
  import opened Text

  datatype NodeStatus = Pending | Online | Suspect | Offline | Maintenance

  datatype Runtime = Runtime(pingoraVersion: Option<string>, agentVersion: Option<string>, activeVersion: Option<string>,
                             siteCount: nat, healthScore: int, lastSeen: Option<int>)

  datatype NodeRecord = NodeRecord(id: Uuid, code: string, name: string, status: NodeStatus, runtime: Runtime)

  datatype Heartbeat = Heartbeat(node: Uuid, pingoraVersion: string, agentVersion: string, activeVersion: Option<string>,
                                 siteCount: nat, healthScore: int, reportedAt: int)

  datatype SiteRecord = SiteRecord(id: Uuid, code: string, bound: seq<Uuid>)

  datatype ReleaseRecord = ReleaseRecord(id: Uuid, version: string, targets: seq<Uuid>, acks: Acks, status: Status)

  // ---------------------------------------------------------------- a unique index

  /** The index maps exactly the codes in use to the record that uses them. */
  ghost predicate IndexAgrees(codes: map<Uuid, string>, index: map<string, Uuid>) {
    && (forall n :: n in codes ==> codes[n] in index && index[codes[n]] == n)
    && (forall c :: c in index ==> index[c] in codes && codes[index[c]] == c)
  }

  /** Saving under `id` neither takes another record's code nor changes its own. */
  ghost predicate CodeFree(codes: map<Uuid, string>, id: Uuid, code: string) {
    && (id in codes ==> codes[id] == code)
    && (forall n :: n in codes && n != id ==> codes[n] != code)
  }

  /** An unchecked save keeps the index right exactly when the code is free. */
  lemma SaveKeepsIndexIff(codes: map<Uuid, string>, index: map<string, Uuid>, id: Uuid, code: string)
    requires IndexAgrees(codes, index)
    ensures IndexAgrees(codes[id := code], index[code := id]) <==> CodeFree(codes, id, code)
  {
    var codes', index' := codes[id := code], index[code := id];
    assert id in codes ==> codes[id] in index';
    if IndexAgrees(codes', index') {
      forall n | n in codes && n != id ensures codes[n] != code {
        assert codes'[n] == codes[n];
      }
    }
  }

  lemma RemoveKeepsIndex(codes: map<Uuid, string>, index: map<string, Uuid>, id: Uuid)
    requires IndexAgrees(codes, index) && id in codes
    ensures IndexAgrees(codes - {id}, index - {codes[id]})
  {
  }

  /** With agreeing indexes a lookup by code is a scan of the records. */
  lemma LookupIsScan(codes: map<Uuid, string>, index: map<string, Uuid>, code: string)
    requires IndexAgrees(codes, index)
    ensures code in index <==> exists n :: n in codes && codes[n] == code
    ensures code in index ==> forall n :: n in codes && codes[n] == code <==> n == index[code]
  {
    if code in index {
      assert index[code] in codes && codes[index[code]] == code;
    }
  }

  function NewNode(id: Uuid, code: string, name: string): NodeRecord {
    NodeRecord(id, code, name, NodeStatus.Pending, Runtime(None, None, None, 0, 100, None))
  }

  function NodeCodes(nodes: map<Uuid, NodeRecord>): map<Uuid, string> {
    map n | n in nodes :: nodes[n].code
  }

  function SiteCodes(sites: map<Uuid, SiteRecord>): map<Uuid, string> {
    map s | s in sites :: sites[s].code
  }

  function Versions(releases: map<Uuid, ReleaseRecord>): map<Uuid, string> {
    map r | r in releases :: releases[r].version
  }

  // ---------------------------------------------------------------- releases

  ghost predicate VersionNew(releases: map<Uuid, ReleaseRecord>, version: string) {
    forall r :: r in releases ==> releases[r].version != version
  }

  function ToSet(s: seq<Uuid>): set<Uuid> {
    set x | x in s
  }

  ghost predicate AcksMatch(r: ReleaseRecord) {
    r.acks.Keys == ToSet(r.targets) && r.status == Aggregate(r.acks)
  }

  /** The last saved release that targets `node`. */
  function NewestFor(saved: seq<Uuid>, releases: map<Uuid, ReleaseRecord>, node: Uuid): Option<Uuid> {
    if saved == [] then None
    else
      var last := saved[|saved| - 1];
      if last in releases && node in releases[last].targets then Some(last)
      else NewestFor(saved[..|saved| - 1], releases, node)
  }

  function Lookup(m: map<Uuid, Uuid>, k: Uuid): Option<Uuid> {
    if k in m then Some(m[k]) else None
  }

  /** Whatever is newest is a saved release that targets the node. */
  lemma {:induction false} NewestTargets(saved: seq<Uuid>, releases: map<Uuid, ReleaseRecord>, node: Uuid)
    requires NewestFor(saved, releases, node).Some?
    ensures var id := NewestFor(saved, releases, node).value; id in releases && node in releases[id].targets
  {
    if !(saved[|saved| - 1] in releases && node in releases[saved[|saved| - 1]].targets) {
      NewestTargets(saved[..|saved| - 1], releases, node);
    }
  }

  /** For a node that is not a target of `r`, overwriting matters only if the old release was its newest. */
  lemma {:induction false} NewestAfterOverwrite(saved: seq<Uuid>, releases: map<Uuid, ReleaseRecord>, r: ReleaseRecord, node: Uuid)
    requires node !in r.targets && NewestFor(saved, releases, node) != Some(r.id)
    ensures NewestFor(saved, releases[r.id := r], node) == NewestFor(saved, releases, node)
  {
    if saved != [] && !(saved[|saved| - 1] in releases && node in releases[saved[|saved| - 1]].targets) {
      NewestAfterOverwrite(saved[..|saved| - 1], releases, r, node);
    }
  }

  /**
   * Saving a release, new or over an old one, makes it the newest of its targets; the newest release of
   * another node stays the same exactly when that was not the overwritten one.
   */
  lemma NewestAfterSave(saved: seq<Uuid>, releases: map<Uuid, ReleaseRecord>, r: ReleaseRecord, node: Uuid)
    ensures var newest := NewestFor(saved + [r.id], releases[r.id := r], node);
      && (node in r.targets ==> newest == Some(r.id))
      && (node !in r.targets ==> (newest == NewestFor(saved, releases, node) <==> NewestFor(saved, releases, node) != Some(r.id)))
  {
    var releases' := releases[r.id := r];
    assert (saved + [r.id])[..|saved|] == saved;
    if node !in r.targets {
      if NewestFor(saved, releases, node) != Some(r.id) {
        NewestAfterOverwrite(saved, releases, r, node);
      } else if NewestFor(saved, releases', node).Some? {
        NewestTargets(saved, releases', node);
      }
    }
  }

  /** `NewestFor` depends only on the targets of saved releases. */
  lemma {:induction false} NewestIgnoresOthers(saved: seq<Uuid>, a: map<Uuid, ReleaseRecord>, b: map<Uuid, ReleaseRecord>, node: Uuid)
    requires forall id :: id in saved ==> (id in a && node in a[id].targets <==> id in b && node in b[id].targets)
    ensures NewestFor(saved, a, node) == NewestFor(saved, b, node)
  {
    if saved != [] {
      assert saved[|saved| - 1] in saved;
      NewestIgnoresOthers(saved[..|saved| - 1], a, b, node);
    }
  }

  lemma {:induction false} NewestOfUntargeted(saved: seq<Uuid>, releases: map<Uuid, ReleaseRecord>, node: Uuid)
    requires forall id :: id in releases ==> node !in releases[id].targets
    ensures NewestFor(saved, releases, node).None?
  {
    if saved != [] {
      NewestOfUntargeted(saved[..|saved| - 1], releases, node);
    }
  }

  function StrikeRelease(r: ReleaseRecord, node: Uuid): ReleaseRecord {
    var acks := r.acks - {node};
    r.(targets := Without(r.targets, [node]), acks := acks, status := Aggregate(acks))
  }

  function StrikeReleases(releases: map<Uuid, ReleaseRecord>, node: Uuid): map<Uuid, ReleaseRecord> {
    map r | r in releases :: StrikeRelease(releases[r], node)
  }

  function StrikeSites(sites: map<Uuid, SiteRecord>, node: Uuid): map<Uuid, SiteRecord> {
    map s | s in sites :: sites[s].(bound := Without(sites[s].bound, [node]))
  }

  /** What striking a node leaves of a site and of a release. */
  lemma StruckFields(sites: map<Uuid, SiteRecord>, releases: map<Uuid, ReleaseRecord>, node: Uuid)
    ensures StrikeSites(sites, node).Keys == sites.Keys && StrikeReleases(releases, node).Keys == releases.Keys
    ensures forall s, x :: s in sites ==> (x in StrikeSites(sites, node)[s].bound <==> x in sites[s].bound && x != node)
    ensures forall s :: s in sites ==> StrikeSites(sites, node)[s].code == sites[s].code && StrikeSites(sites, node)[s].id == sites[s].id
    ensures forall r, x :: r in releases ==> (x in StrikeReleases(releases, node)[r].targets <==> x in releases[r].targets && x != node)
    ensures forall r :: r in releases ==> StrikeReleases(releases, node)[r].acks == releases[r].acks - {node}
  {
  }

  lemma CodesWithout(nodes: map<Uuid, NodeRecord>, node: Uuid)
    ensures NodeCodes(nodes - {node}) == NodeCodes(nodes) - {node}
  {
  }

  /** Striking a node changes no site code and no version. */
  lemma StrikeKeepsCodes(sites: map<Uuid, SiteRecord>, releases: map<Uuid, ReleaseRecord>, node: Uuid)
    ensures SiteCodes(StrikeSites(sites, node)) == SiteCodes(sites)
    ensures Versions(StrikeReleases(releases, node)) == Versions(releases)
  {
  }

  method RemoveFromSites(sites: map<Uuid, SiteRecord>, node: Uuid) returns (result: map<Uuid, SiteRecord>)
    ensures result == StrikeSites(sites, node)
  {
    result := sites;
    var rest := sites.Keys;
    while rest != {}
      invariant rest <= sites.Keys == result.Keys
      invariant forall s :: s in sites ==>
                  result[s] == if s in rest then sites[s] else sites[s].(bound := Without(sites[s].bound, [node]))
    {
      var s :| s in rest;
      rest := rest - {s};
      result := result[s := result[s].(bound := Without(result[s].bound, [node]))];
    }
  }

  method RemoveFromReleases(releases: map<Uuid, ReleaseRecord>, node: Uuid) returns (result: map<Uuid, ReleaseRecord>)
    ensures result == StrikeReleases(releases, node)
  {
    result := releases;
    var rest := releases.Keys;
    while rest != {}
      invariant rest <= releases.Keys == result.Keys
      invariant forall r :: r in releases ==>
                  result[r] == if r in rest then releases[r] else StrikeRelease(releases[r], node)
    {
      var r :| r in rest;
      rest := rest - {r};
      var acks := result[r].acks - {node};
      var status := AggregateReleaseStatus(acks);
      result := result[r := result[r].(targets := Without(result[r].targets, [node]), acks := acks, status := status)];
    }
  }

  /** The per-node cache after a release to `targets` was saved. */
  method PointTargets(latest: map<Uuid, Uuid>, targets: seq<Uuid>, id: Uuid) returns (result: map<Uuid, Uuid>)
    ensures result == latest + map n | n in ToSet(targets) :: id
  {
    result := latest;
    for i := 0 to |targets|
      invariant result == latest + map n | n in ToSet(targets[..i]) :: id
    {
      result := result[targets[i] := id];
      assert targets[..i + 1] == targets[..i] + [targets[i]];
    }
    assert targets[..|targets|] == targets;
  }

  /** `build_release_ack_status`: every target starts out pending. */
  method BuildReleaseAckStatus(targets: seq<Uuid>) returns (acks: Acks)
    ensures acks == map n | n in ToSet(targets) :: ApplyStatus.Pending
  {
    acks := map[];
    for i := 0 to |targets|
      invariant acks == map n | n in ToSet(targets[..i]) :: ApplyStatus.Pending
    {
      acks := acks[targets[i] := ApplyStatus.Pending];
      assert targets[..i + 1] == targets[..i] + [targets[i]];
    }
    assert targets[..|targets|] == targets;
  }

  lemma PendingAcks(acks: Acks)
    requires forall n :: n in acks ==> acks[n] == ApplyStatus.Pending
    ensures Aggregate(acks) == StatusPending
  {
    if acks != map[] {
      assert acks.Keys != {};
      var n :| n in acks.Keys;
      assert n !in Succeeded(acks) && FailedNodes(acks) == {} && Working(acks) == {};
    }
  }

  /** Every release's acknowledgements match its targets, and the per-node cache is the newest saved release. */
  ghost predicate ReleasesAgree(releases: map<Uuid, ReleaseRecord>, saved: seq<Uuid>, latest: map<Uuid, Uuid>) {
    && (forall r :: r in releases <==> r in saved)
    && (forall r :: r in releases ==> releases[r].id == r && AcksMatch(releases[r]))
    && (forall n :: Lookup(latest, n) == NewestFor(saved, releases, n))
  }

  /** No node that the release no longer targets has it as its newest. */
  ghost predicate NoneLeftBehind(latest: map<Uuid, Uuid>, r: ReleaseRecord) {
    forall n :: n in latest && n !in r.targets ==> latest[n] != r.id
  }

  lemma SaveKeepsReleasesIff(releases: map<Uuid, ReleaseRecord>, saved: seq<Uuid>, latest: map<Uuid, Uuid>, r: ReleaseRecord)
    requires ReleasesAgree(releases, saved, latest)
    ensures ReleasesAgree(releases[r.id := r], saved + [r.id], latest + (map n | n in ToSet(r.targets) :: r.id))
       <==> AcksMatch(r) && NoneLeftBehind(latest, r)
  {
    var latest' := latest + (map n | n in ToSet(r.targets) :: r.id);
    forall n
      ensures Lookup(latest', n) == NewestFor(saved + [r.id], releases[r.id := r], n)
         <==> n in r.targets || Lookup(latest, n) != Some(r.id)
    {
      NewestAfterSave(saved, releases, r, n);
      assert n in ToSet(r.targets) <==> n in r.targets;
    }
    assert releases[r.id := r][r.id] == r;
    if ReleasesAgree(releases[r.id := r], saved + [r.id], latest') {
      forall n | n in latest && n !in r.targets ensures latest[n] != r.id {
        assert Lookup(latest, n) == Some(latest[n]);
      }
    }
  }

  /**
   * Saving a release, new or over an old one, keeps every agreement exactly when its acknowledgements match,
   * its version is free, and no node it no longer targets is left behind.
   */
  lemma SaveReleaseIff(releases: map<Uuid, ReleaseRecord>, saved: seq<Uuid>, latest: map<Uuid, Uuid>, index: map<string, Uuid>, r: ReleaseRecord)
    requires ReleasesAgree(releases, saved, latest) && IndexAgrees(Versions(releases), index)
    ensures var releases' := releases[r.id := r];
      (ReleasesAgree(releases', saved + [r.id], latest + map n | n in ToSet(r.targets) :: r.id)
       && IndexAgrees(Versions(releases'), index[r.version := r.id]))
      <==> AcksMatch(r) && CodeFree(Versions(releases), r.id, r.version) && NoneLeftBehind(latest, r)
  {
    SaveKeepsIndexIff(Versions(releases), index, r.id, r.version);
    SaveKeepsReleasesIff(releases, saved, latest, r);
    assert Versions(releases[r.id := r]) == Versions(releases)[r.id := r.version];
  }

  /** A release under a new id leaves nobody behind, and its version is free when no release has it. */
  lemma NewReleaseIsSafe(releases: map<Uuid, ReleaseRecord>, saved: seq<Uuid>, latest: map<Uuid, Uuid>, r: ReleaseRecord)
    requires ReleasesAgree(releases, saved, latest) && r.id !in releases
    ensures NoneLeftBehind(latest, r)
    ensures CodeFree(Versions(releases), r.id, r.version) <==> VersionNew(releases, r.version)
  {
    forall n | n in latest ensures latest[n] in releases {
      assert Lookup(latest, n) == NewestFor(saved, releases, n);
      NewestTargets(saved, releases, n);
    }
    assert forall x :: x in releases ==> Versions(releases)[x] == releases[x].version;
  }

  lemma StrikeKeepsReleases(releases: map<Uuid, ReleaseRecord>, saved: seq<Uuid>, latest: map<Uuid, Uuid>, node: Uuid)
    requires ReleasesAgree(releases, saved, latest)
    ensures ReleasesAgree(StrikeReleases(releases, node), saved, latest - {node})
  {
    var after := StrikeReleases(releases, node);
    forall n ensures Lookup(latest - {node}, n) == NewestFor(saved, after, n) {
      if n == node {
        NewestOfUntargeted(saved, after, node);
      } else {
        NewestIgnoresOthers(saved, releases, after, n);
      }
    }
    forall r | r in after ensures AcksMatch(after[r]) {
      assert after[r].acks.Keys == ToSet(after[r].targets);
    }
  }

  function Acknowledged(r: ReleaseRecord, node: Uuid, ack: ApplyStatus): ReleaseRecord {
    var acks := r.acks[node := ack];
    r.(acks := acks, status := Aggregate(acks))
  }

  lemma AckKeepsVersions(releases: map<Uuid, ReleaseRecord>, id: Uuid, node: Uuid, ack: ApplyStatus)
    requires id in releases
    ensures Versions(releases[id := Acknowledged(releases[id], node, ack)]) == Versions(releases)
  {
  }

  lemma AckKeepsReleasesIff(releases: map<Uuid, ReleaseRecord>, saved: seq<Uuid>, latest: map<Uuid, Uuid>, id: Uuid, node: Uuid, ack: ApplyStatus)
    requires ReleasesAgree(releases, saved, latest) && id in releases
    ensures ReleasesAgree(releases[id := Acknowledged(releases[id], node, ack)], saved, latest) <==> node in releases[id].targets
  {
    var updated := Acknowledged(releases[id], node, ack);
    var acks := updated.acks;
    var after := releases[id := updated];
    forall n ensures NewestFor(saved, after, n) == NewestFor(saved, releases, n) {
      NewestIgnoresOthers(saved, releases, after, n);
    }
    assert after[id] == updated;
    if node in releases[id].targets {
      assert acks.Keys == ToSet(updated.targets);
    } else {
      assert node in acks.Keys && node !in ToSet(updated.targets);
    }
  }

  // ---------------------------------------------------------------- the repository

  class MemoryRepository {
    var nodes: map<Uuid, NodeRecord>
    var nodeIdsByCode: map<string, Uuid>
    var sites: map<Uuid, SiteRecord>
    var siteIdsByCode: map<string, Uuid>
    var releases: map<Uuid, ReleaseRecord>
    var releaseIdsByVersion: map<string, Uuid>
    var latestReleaseByNode: map<Uuid, Uuid>
    ghost var saved: seq<Uuid>

    ghost predicate NodesValid()
      reads this
    {
      (forall n :: n in nodes ==> nodes[n].id == n) && IndexAgrees(NodeCodes(nodes), nodeIdsByCode)
    }

    ghost predicate SitesValid()
      reads this
    {
      IndexAgrees(SiteCodes(sites), siteIdsByCode)
    }

    ghost predicate ReleasesValid()
      reads this
    {
      ReleasesAgree(releases, saved, latestReleaseByNode) && IndexAgrees(Versions(releases), releaseIdsByVersion)
    }

    constructor ()
      ensures NodesValid() && SitesValid() && ReleasesValid()
      ensures nodes == map[] && sites == map[] && releases == map[] && saved == []
    {
      nodes, sites, releases := map[], map[], map[];
      nodeIdsByCode, siteIdsByCode, releaseIdsByVersion := map[], map[], map[];
      latestReleaseByNode, saved := map[], [];
    }

    method SaveNode(node: NodeRecord)
      modifies `nodes, `nodeIdsByCode
      ensures nodes == old(nodes)[node.id := node]
      ensures old(NodesValid()) ==> (NodesValid() <==> CodeFree(NodeCodes(old(nodes)), node.id, node.code))
    {
      if NodesValid() {
        SaveKeepsIndexIff(NodeCodes(nodes), nodeIdsByCode, node.id, node.code);
      }
      nodeIdsByCode := nodeIdsByCode[node.code := node.id];
      nodes := nodes[node.id := node];
      assert NodeCodes(nodes) == NodeCodes(old(nodes))[node.id := node.code];
    }

    /**
     * The save of `create_node`, with what it had looked up before.  It keeps the index right exactly when
     * nobody has taken the code since.
     */
    method SaveNewNode(id: Uuid, code: string, name: string, existing: Option<Uuid>) returns (ok: bool)
      requires NodesValid() && id !in nodes
      modifies `nodes, `nodeIdsByCode
      ensures ok <==> !Blank(code) && !Blank(name) && existing.None?
      ensures nodes == if ok then old(nodes)[id := NewNode(id, code, name)] else old(nodes)
      ensures NodesValid() <==> !ok || forall n :: n in old(nodes) ==> old(nodes)[n].code != code
    {
      if Blank(code) || Blank(name) || existing.Some? {
        return false;
      }
      assert forall n :: n in nodes ==> NodeCodes(nodes)[n] == nodes[n].code;
      SaveNode(NewNode(id, code, name));
      return true;
    }

    /** `create_node` with nothing between its two accesses: refused when a text is blank or the code taken. */
    method CreateNode(id: Uuid, code: string, name: string) returns (ok: bool)
      requires NodesValid() && id !in nodes
      modifies `nodes, `nodeIdsByCode
      ensures NodesValid()
      ensures ok <==> !Blank(code) && !Blank(name) && forall n :: n in old(nodes) ==> old(nodes)[n].code != code
      ensures nodes == if ok then old(nodes)[id := NewNode(id, code, name)] else old(nodes)
    {
      var existing := NodeIdByCode(code);
      ok := SaveNewNode(id, code, name, existing);
    }

    method SaveSite(site: SiteRecord)
      modifies `sites, `siteIdsByCode
      ensures sites == old(sites)[site.id := site]
      ensures old(SitesValid()) ==> (SitesValid() <==> CodeFree(SiteCodes(old(sites)), site.id, site.code))
    {
      if SitesValid() {
        SaveKeepsIndexIff(SiteCodes(sites), siteIdsByCode, site.id, site.code);
      }
      siteIdsByCode := siteIdsByCode[site.code := site.id];
      sites := sites[site.id := site];
      assert SiteCodes(sites) == SiteCodes(old(sites))[site.id := site.code];
    }

    method NodeIdByCode(code: string) returns (id: Option<Uuid>)
      ensures NodesValid() ==> (id.None? <==> forall n :: n in nodes ==> nodes[n].code != code)
      ensures NodesValid() && id.Some? ==> id.value in nodes && nodes[id.value].code == code
    {
      if NodesValid() {
        LookupIsScan(NodeCodes(nodes), nodeIdsByCode, code);
        assert forall n :: n in nodes ==> NodeCodes(nodes)[n] == nodes[n].code;
      }
      id := if code in nodeIdsByCode then Some(nodeIdsByCode[code]) else None;
    }

    /** A heartbeat brings the node online, unless it is in maintenance, and changes runtime fields only. */
    method RecordHeartbeat(beat: Heartbeat)
      modifies `nodes
      ensures nodes.Keys == old(nodes).Keys && NodeCodes(nodes) == NodeCodes(old(nodes))
      ensures old(NodesValid()) ==> NodesValid()
      ensures forall n :: n in nodes && n != beat.node ==> nodes[n] == old(nodes)[n]
      ensures beat.node in nodes ==>
        var was, now := old(nodes)[beat.node], nodes[beat.node];
        && now.name == was.name && now.id == was.id
        && (now.status == Online || (was.status == Maintenance && now.status == Maintenance))
        && (now.status == Online <==> was.status != Maintenance)
        && now.runtime == Runtime(Some(beat.pingoraVersion), Some(beat.agentVersion), beat.activeVersion,
                                  beat.siteCount, beat.healthScore, Some(beat.reportedAt))
    {
      if beat.node in nodes {
        var node := nodes[beat.node];
        if node.status != Maintenance {
          node := node.(status := Online);
        }
        var runtime := Runtime(Some(beat.pingoraVersion), Some(beat.agentVersion), beat.activeVersion,
                               beat.siteCount, beat.healthScore, Some(beat.reportedAt));
        nodes := nodes[beat.node := node.(runtime := runtime)];
      }
    }

    /** Removes the node from every binding. */
    method StrikeFromSites(node: Uuid)
      modifies `sites
      ensures sites == StrikeSites(old(sites), node)
      ensures old(SitesValid()) ==> SitesValid()
    {
      StrikeKeepsCodes(sites, releases, node);
      sites := RemoveFromSites(sites, node);
    }

    /** Removes the node from every release, and its newest release from the cache. */
    method StrikeFromReleases(node: Uuid)
      modifies `releases, `latestReleaseByNode
      ensures releases == StrikeReleases(old(releases), node)
      ensures latestReleaseByNode == old(latestReleaseByNode) - {node}
      ensures old(ReleasesValid()) ==> ReleasesValid()
    {
      StrikeKeepsCodes(sites, releases, node);
      latestReleaseByNode := latestReleaseByNode - {node};
      releases := RemoveFromReleases(releases, node);
      if old(ReleasesValid()) {
        StrikeKeepsReleases(old(releases), saved, old(latestReleaseByNode), node);
      }
    }

    /** Removes the node, its index entry, its bindings, and its part in every release. */
    method DeleteNode(node: Uuid)
      modifies `nodes, `nodeIdsByCode, `sites, `releases, `latestReleaseByNode
      ensures nodes == old(nodes) - {node}
      ensures node in old(nodes) ==> sites == StrikeSites(old(sites), node) && releases == StrikeReleases(old(releases), node)
      ensures node !in old(nodes) ==> sites == old(sites) && releases == old(releases)
      ensures old(NodesValid()) ==> NodesValid()
      ensures old(SitesValid()) ==> SitesValid()
      ensures old(ReleasesValid()) ==> ReleasesValid()
    {
      if node !in nodes {
        assert nodes - {node} == nodes;
        return;
      }
      if NodesValid() {
        RemoveKeepsIndex(NodeCodes(nodes), nodeIdsByCode, node);
      }
      CodesWithout(nodes, node);
      nodeIdsByCode := nodeIdsByCode - {nodes[node].code};
      nodes := nodes - {node};
      assert SitesValid() == old(SitesValid()) && ReleasesValid() == old(ReleasesValid());
      StrikeFromSites(node);
      assert ReleasesValid() == old(ReleasesValid());
      StrikeFromReleases(node);
    }

    method DeleteSite(site: Uuid)
      modifies `sites, `siteIdsByCode
      ensures sites == old(sites) - {site}
      ensures old(SitesValid()) ==> SitesValid()
    {
      if site in sites {
        if SitesValid() {
          RemoveKeepsIndex(SiteCodes(sites), siteIdsByCode, site);
        }
        siteIdsByCode := siteIdsByCode - {sites[site].code};
      }
      sites := sites - {site};
      assert SiteCodes(sites) == SiteCodes(old(sites)) - {site};
      assert site !in old(sites) ==> sites == old(sites);
    }

    /** Saving a release, new or over an old one, keeps everything right under exactly these conditions. */
    method SaveRelease(release: ReleaseRecord)
      modifies `releases, `releaseIdsByVersion, `latestReleaseByNode, `saved
      ensures releases == old(releases)[release.id := release] && saved == old(saved) + [release.id]
      ensures old(ReleasesValid()) ==>
                (ReleasesValid() <==> AcksMatch(release) && CodeFree(Versions(old(releases)), release.id, release.version)
                                      && NoneLeftBehind(old(latestReleaseByNode), release))
    {
      if ReleasesValid() {
        SaveReleaseIff(releases, saved, latestReleaseByNode, releaseIdsByVersion, release);
      }
      releaseIdsByVersion := releaseIdsByVersion[release.version := release.id];
      latestReleaseByNode := PointTargets(latestReleaseByNode, release.targets, release.id);
      releases := releases[release.id := release];
      saved := saved + [release.id];
    }

    /** The newest release saved for the node. */
    method LatestReleaseIdForNode(node: Uuid) returns (id: Option<Uuid>)
      ensures ReleasesValid() ==> id == NewestFor(saved, releases, node)
    {
      assert ReleasesValid() ==> Lookup(latestReleaseByNode, node) == NewestFor(saved, releases, node);
      id := Lookup(latestReleaseByNode, node);
    }

    /** An acknowledgement keeps the release right exactly when it comes from one of its targets. */
    method UpdateReleaseAck(id: Uuid, node: Uuid, ack: ApplyStatus)
      modifies `releases
      ensures id !in old(releases) ==> releases == old(releases)
      ensures id in old(releases) ==> releases == old(releases)[id := Acknowledged(old(releases)[id], node, ack)]
      ensures id in old(releases) ==> id in releases && releases[id].acks == old(releases)[id].acks[node := ack]
      ensures id in old(releases) ==> releases[id].status == Aggregate(releases[id].acks)
      ensures id in old(releases) ==> releases[id].targets == old(releases)[id].targets && releases[id].version == old(releases)[id].version
      ensures old(ReleasesValid()) ==> (ReleasesValid() <==> id !in old(releases) || node in old(releases)[id].targets)
    {
      if id in releases {
        if ReleasesValid() {
          AckKeepsReleasesIff(releases, saved, latestReleaseByNode, id, node, ack);
        }
        AckKeepsVersions(releases, id, node, ack);
        var acks := releases[id].acks[node := ack];
        var status := AggregateReleaseStatus(acks);
        releases := releases[id := releases[id].(acks := acks, status := status)];
      }
    }
  }

  /** Every release saved so far carries a serial below the counter. */
  ghost predicate Numbered(releases: map<Uuid, ReleaseRecord>, counter: nat) {
    forall r :: r in releases ==> SerialOf(releases[r].version) < counter
  }

  lemma NextSerialIsNew(releases: map<Uuid, ReleaseRecord>, counter: nat, scope: string, issuedAt: string)
    requires Numbered(releases, counter)
    ensures VersionNew(releases, BuildReleaseVersion(scope, issuedAt, counter))
    ensures SerialOf(BuildReleaseVersion(scope, issuedAt, counter)) == counter
  {
    SerialRoundTrip(scope, issuedAt, counter);
  }

  /** The hub's release operations over one repository: no call can break an index or a cache. */
  class ReleaseService {
    const repo: MemoryRepository
    var releaseCounter: nat

    ghost predicate Valid()
      reads this, repo
    {
      repo.NodesValid() && repo.ReleasesValid() && Numbered(repo.releases, releaseCounter)
    }

    constructor (r: MemoryRepository)
      requires r.NodesValid() && r.ReleasesValid() && r.releases == map[]
      ensures repo == r && Valid()
    {
      repo, releaseCounter := r, 1;
    }

    /** Draws a serial, builds the version and saves a release to `targets`, all of them pending. */
    method SaveCompiledRelease(id: Uuid, scope: string, issuedAt: string, targets: seq<Uuid>) returns (version: string)
      requires Valid() && id !in repo.releases
      modifies `releaseCounter, repo
      ensures Valid() && repo.saved == old(repo.saved) + [id]
      ensures VersionNew(old(repo.releases), version)
      ensures id in repo.releases && repo.releases == old(repo.releases)[id := repo.releases[id]]
      ensures repo.releases[id].version == version && repo.releases[id].targets == targets
      ensures repo.releases[id].status == StatusPending
    {
      NextSerialIsNew(repo.releases, releaseCounter, scope, issuedAt);
      ghost var before, saved, latest := repo.releases, repo.saved, repo.latestReleaseByNode;
      version := BuildReleaseVersion(scope, issuedAt, releaseCounter);
      releaseCounter := releaseCounter + 1;
      var acks := BuildReleaseAckStatus(targets);
      PendingAcks(acks);
      var status := AggregateReleaseStatus(acks);
      var release := ReleaseRecord(id, version, targets, acks, status);
      NewReleaseIsSafe(before, saved, latest, release);
      repo.SaveRelease(release);
    }

    /**
     * The writes of `ack_release`, with what it had read before: `read` of the release, `seen` of the node.
     * They keep everything right exactly when the node is still a target and its record still its own.
     */
    method SaveAck(id: Uuid, node: Uuid, ack: ApplyStatus, version: string, now: int,
                   read: Option<ReleaseRecord>, seen: Option<NodeRecord>) returns (ok: bool)
      requires Valid()
      modifies repo
      ensures ok <==> read.Some? && node in read.value.targets
      ensures !ok ==> Valid() && repo.releases == old(repo.releases) && repo.nodes == old(repo.nodes)
      ensures ok && id in old(repo.releases) ==>
                repo.releases == old(repo.releases)[id := Acknowledged(old(repo.releases)[id], node, ack)]
      ensures ok && id !in old(repo.releases) ==> repo.releases == old(repo.releases)
      ensures ok ==> repo.nodes == if seen.None? then old(repo.nodes) else old(repo.nodes)[seen.value.id := Reported(seen.value, version, now)]
      ensures ok ==> (Valid() <==> (id in old(repo.releases) ==> node in old(repo.releases)[id].targets)
                                   && (seen.Some? ==> CodeFree(NodeCodes(old(repo.nodes)), seen.value.id, seen.value.code)))
    {
      if read.None? || node !in read.value.targets {
        return false;
      }
      AckKeepsNumbers(repo.releases, id, node, ack, releaseCounter);
      repo.UpdateReleaseAck(id, node, ack);
      ghost var right := repo.ReleasesValid();
      assert repo.NodesValid() && Numbered(repo.releases, releaseCounter);
      if seen.Some? {
        repo.SaveNode(Reported(seen.value, version, now));
        assert repo.ReleasesValid() == right;
      }
      return true;
    }

    /**
     * `ack_release` with nothing between its accesses: refused for an unknown release and for a node that is
     * not one of its targets.  An accepted one is stored with the release, and its version with the node.
     */
    method AckRelease(id: Uuid, node: Uuid, ack: ApplyStatus, version: string, now: int) returns (ok: bool)
      requires Valid()
      modifies repo
      ensures Valid()
      ensures ok <==> id in old(repo.releases) && node in old(repo.releases)[id].targets
      ensures !ok ==> repo.releases == old(repo.releases) && repo.nodes == old(repo.nodes)
      ensures ok ==> repo.releases == old(repo.releases)[id := Acknowledged(old(repo.releases)[id], node, ack)]
      ensures ok && node in old(repo.nodes) ==> repo.nodes == old(repo.nodes)[node := Reported(old(repo.nodes)[node], version, now)]
      ensures ok && node !in old(repo.nodes) ==> repo.nodes == old(repo.nodes)
    {
      var read := if id in repo.releases then Some(repo.releases[id]) else None;
      var seen := if node in repo.nodes then Some(repo.nodes[node]) else None;
      if node in repo.nodes {
        ReportedKeepsCode(repo.nodes, repo.nodeIdsByCode, node, version, now);
      }
      ok := SaveAck(id, node, ack, version, now, read, seen);
    }
  }

  lemma AckKeepsNumbers(releases: map<Uuid, ReleaseRecord>, id: Uuid, node: Uuid, ack: ApplyStatus, counter: nat)
    requires Numbered(releases, counter)
    ensures id in releases ==> Numbered(releases[id := Acknowledged(releases[id], node, ack)], counter)
  {
  }

  /** What a stored acknowledgement and the report with it change, field by field. */
  lemma StoredFields(r: ReleaseRecord, node: NodeRecord, n: Uuid, ack: ApplyStatus, version: string, now: int)
    ensures Acknowledged(r, n, ack) == ReleaseRecord(r.id, r.version, r.targets, r.acks[n := ack], Aggregate(r.acks[n := ack]))
    ensures Reported(node, version, now).runtime.activeVersion == Some(version) && Reported(node, version, now).runtime.lastSeen == Some(now)
    ensures Reported(node, version, now) == node.(runtime := node.runtime.(activeVersion := Some(version), lastSeen := Some(now)))
  {
  }

  /** A new node is pending, has reported nothing, serves no site and counts as healthy. */
  lemma NewNodeFields(id: Uuid, code: string, name: string)
    ensures var n := NewNode(id, code, name);
      && n.id == id && n.code == code && n.name == name && n.status == NodeStatus.Pending
      && n.runtime.siteCount == 0 && n.runtime.healthScore == 100
      && n.runtime.activeVersion.None? && n.runtime.lastSeen.None? && n.runtime.pingoraVersion.None? && n.runtime.agentVersion.None?
  {
  }

  function Reported(node: NodeRecord, version: string, now: int): NodeRecord {
    node.(runtime := node.runtime.(activeVersion := Some(version), lastSeen := Some(now)))
  }

  lemma ReportedKeepsCode(nodes: map<Uuid, NodeRecord>, index: map<string, Uuid>, node: Uuid, version: string, now: int)
    requires IndexAgrees(NodeCodes(nodes), index) && node in nodes && nodes[node].id == node
    ensures CodeFree(NodeCodes(nodes), Reported(nodes[node], version, now).id, nodes[node].code)
  {
    assert NodeCodes(nodes)[node] == nodes[node].code;
  }
}
