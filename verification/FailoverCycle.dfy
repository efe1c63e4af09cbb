/** One cycle of the failover worker over every active policy. */
module FailoverCycle {
  import opened Common
  import opened Sorting
  import opened Bindings
  import opened Failover

  datatype TriggerMode = Manual | SemiAuto | Auto

  datatype NodeStatus = Pending | Online | Suspect | Offline | Maintenance

  /** An active policy as the cycle loads it, with the state of its two nodes.  Times are nanoseconds. */
  datatype PolicySnapshot = PolicySnapshot(
    siteScope: bool,
    siteId: Uuid,
    targets: Targets,
    mode: TriggerMode,
    failureThreshold: nat,
    requireStandbyOnline: bool,
    requireConfigPrewarm: bool,
    primaryStatus: NodeStatus,
    standbyStatus: NodeStatus,
    primaryLastSeen: Option<int>,
    primaryVersion: Option<string>,
    standbyVersion: Option<string>)

  const U32_MAX: nat := 0xFFFF_FFFF

  const NANOS: nat := 1_000_000_000

  function MissedHeartbeats(now: int, lastSeen: int, expectedSeconds: nat): nat {
    var interval := if expectedSeconds == 0 then 1 else expectedSeconds;
    var elapsed: nat := if now <= lastSeen then 0 else (now - lastSeen) / NANOS;
    if elapsed / interval <= U32_MAX then elapsed / interval else U32_MAX
  }

  predicate EvaluatePolicy(p: PolicySnapshot, now: int, expectedSeconds: nat) {
    if !p.siteScope then false
    else if p.mode.Manual? then false
    else if p.requireStandbyOnline && !p.standbyStatus.Online? then false
    else if p.requireConfigPrewarm && !(p.standbyVersion.Some? && p.standbyVersion == p.primaryVersion) then false
    else
      var missed := match p.primaryLastSeen
                    case Some(t) => MissedHeartbeats(now, t, expectedSeconds)
                    case None => U32_MAX;
      p.primaryStatus.Offline? || missed >= (if p.failureThreshold == 0 then 1 else p.failureThreshold)
  }

  /** The whole intervals of silence, counted up to the largest 32-bit number; none for a node seen in the future. */
  lemma MissedIs(now: int, lastSeen: int, expectedSeconds: nat)
    requires expectedSeconds > 0
    ensures now <= lastSeen ==> MissedHeartbeats(now, lastSeen, expectedSeconds) == 0
    ensures MissedHeartbeats(now, lastSeen, expectedSeconds) <= 0xFFFF_FFFF
    ensures now > lastSeen && (now - lastSeen) / 1_000_000_000 / expectedSeconds <= 0xFFFF_FFFF ==>
              MissedHeartbeats(now, lastSeen, expectedSeconds) == (now - lastSeen) / 1_000_000_000 / expectedSeconds
    ensures MissedHeartbeats(now, lastSeen, 0) == MissedHeartbeats(now, lastSeen, 1)
  {
    assert 0 / expectedSeconds == 0;
  }

  lemma QuotientAtLeast(e: nat, d: nat, t: nat)
    requires d > 0
    ensures e / d >= t <==> e >= t * d
  {
    var q := e / d;
    assert q * d <= e < (q + 1) * d;
    if q >= t {
      assert q * d >= t * d;
    } else {
      assert (q + 1) * d <= t * d;
    }
  }

  /** The shortest silence, in nanoseconds, after which a primary that still counts as reachable is given up. */
  function SilenceLimit(p: PolicySnapshot, expectedSeconds: nat): nat {
    (if p.failureThreshold == 0 then 1 else p.failureThreshold) * (if expectedSeconds == 0 then 1 else expectedSeconds) * NANOS
  }

  /**
   * A policy is eligible exactly when its gates are open and its primary is offline, was never seen, or
   * has been silent for `threshold` whole heartbeat intervals.
   */
  lemma SilenceThreshold(p: PolicySnapshot, now: int, expectedSeconds: nat)
    requires p.failureThreshold <= U32_MAX
    ensures EvaluatePolicy(p, now, expectedSeconds) <==>
      && p.siteScope && !p.mode.Manual?
      && (p.requireStandbyOnline ==> p.standbyStatus.Online?)
      && (p.requireConfigPrewarm ==> p.standbyVersion.Some? && p.standbyVersion == p.primaryVersion)
      && (p.primaryStatus.Offline? || p.primaryLastSeen.None? || now - p.primaryLastSeen.value >= SilenceLimit(p, expectedSeconds))
  {
    if p.primaryLastSeen.Some? {
      SilenceOfSeen(p, now, expectedSeconds);
    }
  }

  lemma SilenceOfSeen(p: PolicySnapshot, now: int, expectedSeconds: nat)
    requires p.primaryLastSeen.Some? && p.failureThreshold <= U32_MAX
    ensures MissedHeartbeats(now, p.primaryLastSeen.value, expectedSeconds) >= (if p.failureThreshold == 0 then 1 else p.failureThreshold)
       <==> now - p.primaryLastSeen.value >= SilenceLimit(p, expectedSeconds)
  {
    var t := if p.failureThreshold == 0 then 1 else p.failureThreshold;
    var interval := if expectedSeconds == 0 then 1 else expectedSeconds;
    var gap := now - p.primaryLastSeen.value;
    assert t * interval >= 1 by {
      assert t >= 1 && interval >= 1;
    }
    if gap > 0 {
      QuotientAtLeast(gap, NANOS, t * interval);
      QuotientAtLeast(gap / NANOS, interval, t);
    } else {
      QuotientAtLeast(0, interval, t);
    }
  }

  datatype Summary = Summary(scanned: nat, eligible: nat, switched: nat, skipped: nat, failed: nat)

  /** Policies the cycle has accounted for. */
  function Counted(s: Summary): nat {
    s.switched + s.skipped + s.failed
  }

  function CountEligible(ps: seq<PolicySnapshot>, now: int, expectedSeconds: nat): nat {
    if ps == [] then 0
    else CountEligible(ps[..|ps| - 1], now, expectedSeconds)
         + (if EvaluatePolicy(ps[|ps| - 1], now, expectedSeconds) then 1 else 0)
  }

  lemma CountEligibleStep(ps: seq<PolicySnapshot>, i: nat, now: int, expectedSeconds: nat)
    requires i < |ps|
    ensures CountEligible(ps[..i + 1], now, expectedSeconds)
         == CountEligible(ps[..i], now, expectedSeconds) + (if EvaluatePolicy(ps[i], now, expectedSeconds) then 1 else 0)
  {
    assert ps[..i + 1][..i] == ps[..i];
  }

  /** Endings in which a committed switch is reported as a failure. */
  predicate Hides(ending: Ending) {
    ending.LeftOpen? || ending.Misreported?
  }

  /** The snapshot names the site's primary, as its primary or as its standby. */
  predicate Names(policy: Targets, site: Site) {
    site.policy.primary == policy.primary || site.policy.primary == policy.standby
  }

  /**
   * One attempt on the current rows of a site in step: it stays in step exactly when it does not commit or
   * its snapshot names the site's primary.
   */
  lemma AttemptOnStep(site: Site, policy: Targets, loaded: seq<Binding>, outcome: Outcome)
    requires InStep(site) && multiset(Rows(loaded)) == site.rows && policy.primary != policy.standby
    ensures InStep(TriggerPolicyFailover(site, policy, loaded, outcome).0)
       <==> site.openEvent || !outcome.commits || Names(policy, site)
  {
    OnlyPolicyPrimariesIff(site, policy, loaded);
    AttemptInStepIff(site, policy, loaded, outcome);
  }

  /** With a current snapshot the primary moves exactly when the attempt commits, and the report says so unless it is hidden. */
  lemma AttemptReports(site: Site, loaded: seq<Binding>, outcome: Outcome)
    requires InStep(site) && multiset(Rows(loaded)) == site.rows
    ensures var (after, attempt) := TriggerPolicyFailover(site, site.policy, loaded, outcome);
      && (after.policy.primary != site.policy.primary <==> !site.openEvent && outcome.commits)
      && (attempt != Crashed ==> (attempt == Switched <==> !site.openEvent && outcome.commits && !Hides(outcome.ending)))
      && (attempt == Crashed <==> !site.openEvent && outcome.ending.Crash?)
      && (attempt == Skipped <==> site.openEvent)
  {
    OnlyPolicyPrimariesIff(site, site.policy, loaded);
    AttemptStores(site, site.policy, loaded, outcome);
    FailoverKeepsStep(site, site.policy, loaded);
  }

  /** Every row a failover stores names a policy node or was there before. */
  lemma FailoverRowsFrom(loaded: seq<Binding>, policy: Targets)
    ensures forall r :: r in multiset(Rows(BuildSwitchedBindings(loaded, policy.primary, policy.standby))) ==>
              r.nodeId == policy.primary || r.nodeId == policy.standby || r in multiset(Rows(loaded))
  {
    SwitchedRows(loaded, policy.primary, policy.standby);
    OthersRows(loaded, policy.primary, policy.standby);
  }

  lemma AttemptRows(site: Site, policy: Targets, loaded: seq<Binding>, outcome: Outcome)
    requires multiset(Rows(loaded)) == site.rows && PossibleAttempt(policy, loaded)
    ensures UniqueNodes(TriggerPolicyFailover(site, policy, loaded, outcome).0.rows)
    ensures forall r :: r in TriggerPolicyFailover(site, policy, loaded, outcome).0.rows ==>
              r.nodeId == policy.primary || r.nodeId == policy.standby || r in site.rows
  {
    FailoverRowsFrom(loaded, policy);
    FailoverInStepIff(site, policy, loaded);
    AttemptStores(site, policy, loaded, outcome);
  }

  /** Foreign keys: every bound node exists. */
  ghost predicate NodesExist(rows: multiset<Row>, nodes: map<Uuid, NodeInfo>) {
    forall r :: r in rows ==> r.nodeId in nodes
  }

  /** Foreign keys and the unique constraint, on every site. */
  ghost predicate Referential(sites: map<Uuid, Site>, nodes: map<Uuid, NodeInfo>) {
    forall s :: s in sites ==> NodesExist(sites[s].rows, nodes) && UniqueNodes(sites[s].rows)
  }

  ghost predicate AllInStep(sites: map<Uuid, Site>) {
    forall s :: s in sites ==> InStep(sites[s])
  }

  predicate OnePolicyPerSite(policies: seq<PolicySnapshot>) {
    forall i, j :: 0 <= i < j < |policies| ==> policies[i].siteId != policies[j].siteId
  }

  /** What the foreign keys and the check constraint of a policy row say. */
  predicate PolicyStored(policy: PolicySnapshot, nodes: map<Uuid, NodeInfo>) {
    policy.targets.primary in nodes && policy.targets.standby in nodes && policy.targets.primary != policy.targets.standby
  }

  /** The snapshot still agrees with the stored policy of its site. */
  predicate Current(policy: PolicySnapshot, sites: map<Uuid, Site>) {
    policy.siteId in sites ==> sites[policy.siteId].policy == policy.targets
  }

  predicate UnchangedExcept(before: map<Uuid, Site>, after: map<Uuid, Site>, touched: set<Uuid>) {
    && after.Keys == before.Keys
    && forall s :: s in before && s !in touched ==> after[s] == before[s]
  }

  /** Whether the primary of site `s` differs between two states of the database. */
  predicate PrimaryMoved(before: map<Uuid, Site>, after: map<Uuid, Site>, s: Uuid) {
    s in before && s in after && after[s].policy.primary != before[s].policy.primary
  }

  function MovedSites(before: map<Uuid, Site>, after: map<Uuid, Site>): set<Uuid>
    requires after.Keys == before.Keys
  {
    set s | s in before.Keys && PrimaryMoved(before, after, s)
  }

  /** The worker's query: rows joined with their nodes, in any order the database likes, then sorted. */
  method LoadSiteBindings(rows: multiset<Row>, nodes: map<Uuid, NodeInfo>) returns (loaded: seq<Binding>)
    requires NodesExist(rows, nodes)
    ensures IsWorkerLoad(loaded, rows, nodes)
  {
    var rest := rows;
    var joined: seq<Binding> := [];
    while rest != multiset{}
      invariant multiset(Rows(joined)) + rest == rows
      invariant forall b :: b in joined ==>
                  b.row.nodeId in nodes && nodes[b.row.nodeId] == NodeInfo(b.nodeCode, b.nodeStatus)
      decreases |rest|
    {
      var r :| r in rest;
      assert r in rows;
      var b := Binding(r, nodes[r.nodeId].code, nodes[r.nodeId].status);
      RowsConcat(joined, [b]);
      assert Rows([b]) == [r];
      joined := joined + [b];
      rest := rest - multiset{r};
    }
    loaded := Sort(joined, BindingLe);
    BindingLeIsTotal();
    SortSorts(joined, BindingLe);
    RowsOfSort(joined, BindingLe);
    forall b | b in loaded ensures b in joined {
      SortMembers(joined, BindingLe, b);
    }
  }

  /** One attempt on one site, from its query to its commit.  A failure is free of effect only if it left no event open. */
  method AttemptSite(site: Site, nodes: map<Uuid, NodeInfo>, policy: Targets, outcome: Outcome)
    returns (after: Site, attempt: Attempt)
    requires NodesExist(site.rows, nodes) && UniqueNodes(site.rows)
    requires policy.primary in nodes && policy.standby in nodes && policy.primary != policy.standby
    ensures NodesExist(after.rows, nodes) && UniqueNodes(after.rows)
    ensures attempt == Skipped ==> after == site
    ensures attempt == Failed ==> after == site || after.openEvent || outcome.ending.Misreported?
    ensures attempt == Crashed ==> outcome.ending.Crash?
    ensures InStep(site) ==> (InStep(after) <==> site.openEvent || !outcome.commits || Names(policy, site))
    ensures InStep(site) && site.policy == policy ==>
      && (after.policy.primary != site.policy.primary <==> !site.openEvent && outcome.commits)
      && (attempt != Crashed ==> (attempt == Switched <==> !site.openEvent && outcome.commits && !Hides(outcome.ending)))
      && (attempt == Crashed <==> !site.openEvent && outcome.ending.Crash?)
      && (attempt == Skipped <==> site.openEvent)
  {
    var loaded := LoadSiteBindings(site.rows, nodes);
    var (a, r) := TriggerPolicyFailover(site, policy, loaded, outcome);
    AttemptRows(site, policy, loaded, outcome);
    AttemptStores(site, policy, loaded, outcome);
    if InStep(site) {
      AttemptOnStep(site, policy, loaded, outcome);
      if site.policy == policy {
        AttemptReports(site, loaded, outcome);
      }
    }
    after, attempt := a, r;
  }

  /** The site of the policy exists, has no open event, and the attempt's transaction commits. */
  predicate CommitsOn(sites: map<Uuid, Site>, policy: PolicySnapshot, outcome: Outcome) {
    policy.siteId in sites && !sites[policy.siteId].openEvent && outcome.commits
  }

  lemma SiteUpdate(before: map<Uuid, Site>, nodes: map<Uuid, NodeInfo>, s: Uuid, after: Site)
    requires Referential(before, nodes) && s in before && NodesExist(after.rows, nodes) && UniqueNodes(after.rows)
    ensures Referential(before[s := after], nodes) && UnchangedExcept(before, before[s := after], {s})
  {
  }

  lemma SameSite(sites: map<Uuid, Site>, s: Uuid)
    requires s in sites
    ensures sites[s := sites[s]] == sites
  {
  }

  lemma AllInStepUpdate(before: map<Uuid, Site>, s: Uuid, after: Site)
    requires AllInStep(before) && s in before
    ensures AllInStep(before[s := after]) <==> InStep(after)
  {
    assert before[s := after][s] == after;
  }

  /** The policy has an open event, whether its site still exists or not. */
  predicate EventOpen(sites: map<Uuid, Site>, strayEvents: set<Uuid>, policy: PolicySnapshot) {
    if policy.siteId in sites then sites[policy.siteId].openEvent else policy.siteId in strayEvents
  }

  /**
   * `trigger_policy_failover` for one snapshot: only its own site may change.  `strayEvents` are the deleted
   * sites whose policy still has an open event.
   */
  method Trigger(before: map<Uuid, Site>, nodes: map<Uuid, NodeInfo>, strayEvents: set<Uuid>, policy: PolicySnapshot, outcome: Outcome)
    returns (sites: map<Uuid, Site>, attempt: Attempt)
    requires Referential(before, nodes) && PolicyStored(policy, nodes)
    ensures Referential(sites, nodes)
    ensures UnchangedExcept(before, sites, {policy.siteId})
    ensures policy.siteId !in before ==> sites == before && attempt == if policy.siteId in strayEvents then Skipped else Failed
    ensures attempt == Skipped ==> sites == before
    ensures attempt == Failed ==> sites == before || sites[policy.siteId].openEvent || outcome.ending.Misreported?
    ensures attempt == Crashed ==> outcome.ending.Crash?
    ensures AllInStep(before) ==>
              (AllInStep(sites) <==> (CommitsOn(before, policy, outcome) ==> Names(policy.targets, before[policy.siteId])))
    ensures AllInStep(before) && Current(policy, before) ==>
      && (PrimaryMoved(before, sites, policy.siteId) <==> CommitsOn(before, policy, outcome))
      && (attempt != Crashed ==> (attempt == Switched <==> CommitsOn(before, policy, outcome) && !Hides(outcome.ending)))
      && (attempt == Skipped <==> EventOpen(before, strayEvents, policy))
  {
    if policy.siteId !in before {
      return before, if policy.siteId in strayEvents then Skipped else Failed;
    }
    var after, result := AttemptSite(before[policy.siteId], nodes, policy.targets, outcome);
    sites, attempt := before[policy.siteId := after], result;
    SiteUpdate(before, nodes, policy.siteId, after);
    SameSite(before, policy.siteId);
    if AllInStep(before) {
      AllInStepUpdate(before, policy.siteId, after);
    }
  }

  /** The body of the cycle's loop: one policy is evaluated, attempted if eligible, and counted. */
  method ProcessPolicy(before: map<Uuid, Site>, nodes: map<Uuid, NodeInfo>, strayEvents: set<Uuid>, policy: PolicySnapshot,
                       now: int, expectedSeconds: nat, outcome: Outcome, counted: Summary)
    returns (sites: map<Uuid, Site>, summary: Summary, crashed: bool)
    requires Referential(before, nodes) && PolicyStored(policy, nodes)
    ensures Referential(sites, nodes)
    ensures UnchangedExcept(before, sites, {policy.siteId})
    ensures !EvaluatePolicy(policy, now, expectedSeconds) ==> sites == before && summary == counted.(skipped := counted.skipped + 1)
    ensures summary.scanned == counted.scanned
    ensures summary.eligible == counted.eligible + (if EvaluatePolicy(policy, now, expectedSeconds) then 1 else 0)
    ensures !crashed ==> Counted(summary) == Counted(counted) + 1
    ensures crashed ==> outcome.ending.Crash?
    ensures AllInStep(before) ==>
              (AllInStep(sites) <==>
                (EvaluatePolicy(policy, now, expectedSeconds) && CommitsOn(before, policy, outcome) ==> Names(policy.targets, before[policy.siteId])))
    ensures AllInStep(before) && Current(policy, before) ==>
              (PrimaryMoved(before, sites, policy.siteId) <==>
                EvaluatePolicy(policy, now, expectedSeconds) && CommitsOn(before, policy, outcome))
    ensures AllInStep(before) && Current(policy, before) && !crashed ==>
              summary.switched == counted.switched
                + (if PrimaryMoved(before, sites, policy.siteId) && !Hides(outcome.ending) then 1 else 0)
    ensures AllInStep(before) && Current(policy, before) && !crashed && EvaluatePolicy(policy, now, expectedSeconds) ==>
              summary.skipped == counted.skipped + (if EventOpen(before, strayEvents, policy) then 1 else 0)
  {
    sites, summary, crashed := before, counted, false;
    if !EvaluatePolicy(policy, now, expectedSeconds) {
      summary := summary.(skipped := summary.skipped + 1);
      return;
    }
    summary := summary.(eligible := summary.eligible + 1);
    var attempt;
    sites, attempt := Trigger(before, nodes, strayEvents, policy, outcome);
    match attempt {
      case Switched => summary := summary.(switched := summary.switched + 1);
      case Skipped => summary := summary.(skipped := summary.skipped + 1);
      case Failed => summary := summary.(failed := summary.failed + 1);
      case Crashed => crashed := true;
    }
  }

  // ---------------------------------------------------------------- what the counters say

  /** The primary moved, but the attempt counts as failed: its event was closed so, or could not be closed. */
  predicate HiddenMove(before: map<Uuid, Site>, policy: PolicySnapshot, outcome: Outcome, now: int, expectedSeconds: nat) {
    EvaluatePolicy(policy, now, expectedSeconds) && CommitsOn(before, policy, outcome) && Hides(outcome.ending)
  }

  function CountHidden(before: map<Uuid, Site>, ps: seq<PolicySnapshot>, outcomes: seq<Outcome>, now: int, expectedSeconds: nat): nat
    requires |outcomes| == |ps|
  {
    if ps == [] then 0
    else CountHidden(before, ps[..|ps| - 1], outcomes[..|ps| - 1], now, expectedSeconds)
         + (if HiddenMove(before, ps[|ps| - 1], outcomes[|ps| - 1], now, expectedSeconds) then 1 else 0)
  }

  lemma CountHiddenStep(before: map<Uuid, Site>, ps: seq<PolicySnapshot>, outcomes: seq<Outcome>, i: nat, now: int, expectedSeconds: nat)
    requires |outcomes| == |ps| && i < |ps|
    ensures CountHidden(before, ps[..i + 1], outcomes[..i + 1], now, expectedSeconds)
         == CountHidden(before, ps[..i], outcomes[..i], now, expectedSeconds)
            + (if HiddenMove(before, ps[i], outcomes[i], now, expectedSeconds) then 1 else 0)
  {
    assert ps[..i + 1][..i] == ps[..i] && outcomes[..i + 1][..i] == outcomes[..i];
  }

  lemma {:induction false} NoneHiddenIff(before: map<Uuid, Site>, ps: seq<PolicySnapshot>, outcomes: seq<Outcome>, now: int, expectedSeconds: nat)
    requires |outcomes| == |ps|
    ensures CountHidden(before, ps, outcomes, now, expectedSeconds) == 0
       <==> forall i :: 0 <= i < |ps| ==> !HiddenMove(before, ps[i], outcomes[i], now, expectedSeconds)
  {
    if ps != [] {
      var k := |ps| - 1;
      NoneHiddenIff(before, ps[..k], outcomes[..k], now, expectedSeconds);
      assert forall i :: 0 <= i < k ==> ps[..k][i] == ps[i] && outcomes[..k][i] == outcomes[i];
    }
  }

  lemma AddOne(a: set<Uuid>, x: Uuid, b: set<Uuid>)
    requires x !in a && forall y :: y in b <==> y in a || y == x
    ensures |b| == |a| + 1
  {
    assert b == a + {x};
  }

  lemma MovedByOne(before: map<Uuid, Site>, sites: map<Uuid, Site>, next: map<Uuid, Site>, s: Uuid)
    requires sites.Keys == before.Keys && UnchangedExcept(sites, next, {s})
    requires s in before ==> sites[s] == before[s]
    ensures |MovedSites(before, next)| == |MovedSites(before, sites)| + if PrimaryMoved(sites, next, s) then 1 else 0
  {
    forall x ensures x in MovedSites(before, next) <==> x in MovedSites(before, sites) || (x == s && PrimaryMoved(sites, next, s)) {
    }
    if PrimaryMoved(sites, next, s) {
      AddOne(MovedSites(before, sites), s, MovedSites(before, next));
    } else {
      assert MovedSites(before, next) == MovedSites(before, sites);
    }
  }

  /** A site changes only when a policy naming it is eligible. */
  ghost predicate OnlyEligibleChanged(before: map<Uuid, Site>, after: map<Uuid, Site>, policies: seq<PolicySnapshot>,
                                      now: int, expectedSeconds: nat)
  {
    && after.Keys == before.Keys
    && forall s :: s in before && after[s] != before[s] ==>
         exists p :: p in policies && p.siteId == s && EvaluatePolicy(p, now, expectedSeconds)
  }

  lemma OnlyEligibleStep(before: map<Uuid, Site>, sites: map<Uuid, Site>, next: map<Uuid, Site>,
                         policies: seq<PolicySnapshot>, i: nat, now: int, expectedSeconds: nat)
    requires i < |policies| && OnlyEligibleChanged(before, sites, policies[..i], now, expectedSeconds)
    requires UnchangedExcept(sites, next, {policies[i].siteId})
    requires !EvaluatePolicy(policies[i], now, expectedSeconds) ==> next == sites
    ensures OnlyEligibleChanged(before, next, policies[..i + 1], now, expectedSeconds)
    ensures OnlyEligibleChanged(before, next, policies, now, expectedSeconds)
  {
    forall s | s in before && next[s] != before[s]
      ensures exists p :: p in policies[..i + 1] && p in policies && p.siteId == s && EvaluatePolicy(p, now, expectedSeconds)
    {
      if sites[s] != before[s] {
        var p :| p in policies[..i] && p.siteId == s && EvaluatePolicy(p, now, expectedSeconds);
        assert p in policies[..i + 1] && p in policies;
      } else {
        assert policies[i] in policies[..i + 1] && policies[i] in policies;
      }
    }
  }

  /** With one policy per site, the site of the next policy is still as the cycle found it. */
  lemma StillUntouched(before: map<Uuid, Site>, sites: map<Uuid, Site>, policies: seq<PolicySnapshot>, i: nat,
                       now: int, expectedSeconds: nat)
    requires i < |policies| && OnlyEligibleChanged(before, sites, policies[..i], now, expectedSeconds)
    requires Orderly(before, policies)
    ensures policies[i].siteId in before ==> sites[policies[i].siteId] == before[policies[i].siteId]
    ensures Current(policies[i], sites)
  {
  }

  /** After the first `i` policies: what is reported and what is hidden add up to the sites moved. */
  ghost predicate Tallies(before: map<Uuid, Site>, sites: map<Uuid, Site>, policies: seq<PolicySnapshot>, outcomes: seq<Outcome>,
                          i: nat, now: int, expectedSeconds: nat, switched: nat)
    requires sites.Keys == before.Keys && |outcomes| == |policies| && i <= |policies|
  {
    switched + CountHidden(before, policies[..i], outcomes[..i], now, expectedSeconds) == |MovedSites(before, sites)|
  }

  lemma TallyStep(before: map<Uuid, Site>, was: map<Uuid, Site>, sites: map<Uuid, Site>, policies: seq<PolicySnapshot>,
                  outcomes: seq<Outcome>, i: nat, now: int, expectedSeconds: nat, counted: nat, switched: nat)
    requires was.Keys == before.Keys && |outcomes| == |policies| && i < |policies|
    requires Tallies(before, was, policies, outcomes, i, now, expectedSeconds, counted)
    requires UnchangedExcept(was, sites, {policies[i].siteId})
    requires policies[i].siteId in before ==> was[policies[i].siteId] == before[policies[i].siteId]
    requires PrimaryMoved(was, sites, policies[i].siteId)
        <==> EvaluatePolicy(policies[i], now, expectedSeconds) && CommitsOn(was, policies[i], outcomes[i])
    requires switched == counted + (if PrimaryMoved(was, sites, policies[i].siteId) && !Hides(outcomes[i].ending) then 1 else 0)
    ensures Tallies(before, sites, policies, outcomes, i + 1, now, expectedSeconds, switched)
  {
    CountHiddenStep(before, policies, outcomes, i, now, expectedSeconds);
    MovedByOne(before, was, sites, policies[i].siteId);
  }

  /** The assumptions of the cycle: sites in step, one active policy each, snapshots current at the start. */
  ghost predicate Orderly(sites: map<Uuid, Site>, policies: seq<PolicySnapshot>) {
    && AllInStep(sites)
    && OnePolicyPerSite(policies)
    && forall i :: 0 <= i < |policies| ==> Current(policies[i], sites)
  }

  /**
   * `process_failover_policies`.  `outcomes[i]` is what the transaction of the i-th policy meets;
   * a crash ends the cycle.  The snapshots are taken once, at the start of the cycle.
   */
  method ProcessFailoverPolicies(before: map<Uuid, Site>, nodes: map<Uuid, NodeInfo>, strayEvents: set<Uuid>,
                                 policies: seq<PolicySnapshot>, now: int, expectedSeconds: nat, outcomes: seq<Outcome>)
    returns (sites: map<Uuid, Site>, summary: Summary, crashed: bool)
    requires |outcomes| == |policies| && Referential(before, nodes)
    requires forall i :: 0 <= i < |policies| ==> PolicyStored(policies[i], nodes)
    ensures Referential(sites, nodes) && sites.Keys == before.Keys
    ensures OnlyEligibleChanged(before, sites, policies, now, expectedSeconds)
    ensures summary.scanned == |policies|
    ensures !crashed ==> Counted(summary) == summary.scanned
    ensures !crashed ==> summary.eligible == CountEligible(policies, now, expectedSeconds)
    ensures Orderly(before, policies) ==> AllInStep(sites)
    ensures Orderly(before, policies) && !crashed ==>
              summary.switched + CountHidden(before, policies, outcomes, now, expectedSeconds) == |MovedSites(before, sites)|
    ensures Orderly(before, policies) && !crashed ==>
              (summary.switched == |MovedSites(before, sites)| <==>
                forall i :: 0 <= i < |policies| ==> !HiddenMove(before, policies[i], outcomes[i], now, expectedSeconds))
    ensures crashed ==> exists i :: 0 <= i < |outcomes| && outcomes[i].ending.Crash?
  {
    sites, summary, crashed := ProcessAll(before, nodes, strayEvents, policies, now, expectedSeconds, outcomes);
    NoneHiddenIff(before, policies, outcomes, now, expectedSeconds);
  }

  /** Its loop. */
  method ProcessAll(before: map<Uuid, Site>, nodes: map<Uuid, NodeInfo>, strayEvents: set<Uuid>,
                    policies: seq<PolicySnapshot>, now: int, expectedSeconds: nat, outcomes: seq<Outcome>)
    returns (sites: map<Uuid, Site>, summary: Summary, crashed: bool)
    requires |outcomes| == |policies| && Referential(before, nodes)
    requires forall i :: 0 <= i < |policies| ==> PolicyStored(policies[i], nodes)
    ensures Referential(sites, nodes) && sites.Keys == before.Keys
    ensures OnlyEligibleChanged(before, sites, policies, now, expectedSeconds)
    ensures summary.scanned == |policies|
    ensures !crashed ==> Counted(summary) == |policies| && summary.eligible == CountEligible(policies, now, expectedSeconds)
    ensures Orderly(before, policies) ==> AllInStep(sites)
    ensures Orderly(before, policies) && !crashed ==>
              summary.switched + CountHidden(before, policies, outcomes, now, expectedSeconds) == |MovedSites(before, sites)|
    ensures crashed ==> exists i :: 0 <= i < |outcomes| && outcomes[i].ending.Crash?
  {
    sites := before;
    summary := Summary(|policies|, 0, 0, 0, 0);
    crashed := false;
    assert MovedSites(before, before) == {};
    for i := 0 to |policies|
      invariant Referential(sites, nodes) && sites.Keys == before.Keys
      invariant OnlyEligibleChanged(before, sites, policies[..i], now, expectedSeconds)
      invariant summary.scanned == |policies|
      invariant Counted(summary) == i
      invariant summary.eligible == CountEligible(policies[..i], now, expectedSeconds)
      invariant Orderly(before, policies) ==> AllInStep(sites)
      invariant Orderly(before, policies) ==> Tallies(before, sites, policies, outcomes, i, now, expectedSeconds, summary.switched)
    {
      CountEligibleStep(policies, i, now, expectedSeconds);
      ghost var was, counted := sites, summary;
      if Orderly(before, policies) {
        StillUntouched(before, was, policies, i, now, expectedSeconds);
      }
      sites, summary, crashed := ProcessPolicy(sites, nodes, strayEvents, policies[i], now, expectedSeconds, outcomes[i], summary);
      OnlyEligibleStep(before, was, sites, policies, i, now, expectedSeconds);
      if crashed {
        return;
      }
      if Orderly(before, policies) {
        TallyStep(before, was, sites, policies, outcomes, i, now, expectedSeconds, counted.switched, summary.switched);
      }
    }
    assert policies[..|policies|] == policies && outcomes[..|outcomes|] == outcomes;
  }

  lemma MovedAtMostOne(before: map<Uuid, Site>, after: map<Uuid, Site>, s: Uuid)
    requires before.Keys == {s} == after.Keys
    ensures |MovedSites(before, after)| <= 1
  {
    if s in MovedSites(before, after) {
      assert MovedSites(before, after) == {s};
    } else {
      assert MovedSites(before, after) == {};
    }
  }

  lemma HidesOne(before: map<Uuid, Site>, policies: seq<PolicySnapshot>, outcomes: seq<Outcome>, now: int, expectedSeconds: nat)
    requires |policies| == |outcomes| == 1 && HiddenMove(before, policies[0], outcomes[0], now, expectedSeconds)
    ensures CountHidden(before, policies, outcomes, now, expectedSeconds) == 1
  {
    CountHiddenStep(before, policies, outcomes, 0, now, expectedSeconds);
    assert policies[..1] == policies && outcomes[..1] == outcomes;
  }

  /** What a cycle over a single policy leaves and reports. */
  method OnePolicyCycle(before: map<Uuid, Site>, nodes: map<Uuid, NodeInfo>, policies: seq<PolicySnapshot>, now: int,
                        expectedSeconds: nat, outcomes: seq<Outcome>)
    returns (sites: map<Uuid, Site>, summary: Summary, crashed: bool)
    requires |policies| == |outcomes| == 1 && PolicyStored(policies[0], nodes)
    requires Referential(before, nodes) && Orderly(before, policies)
    ensures sites.Keys == before.Keys
    ensures !crashed ==> Counted(summary) == 1
    ensures !crashed ==> summary.switched + CountHidden(before, policies, outcomes, now, expectedSeconds) == |MovedSites(before, sites)|
    ensures crashed ==> outcomes[0].ending.Crash?
  {
    sites, summary, crashed := ProcessFailoverPolicies(before, nodes, {}, policies, now, expectedSeconds, outcomes);
  }

  /** A cycle in which the two numbers differ: the one site's primary moves, and the summary reports no switch. */
  method CycleHidesSwitch(before: map<Uuid, Site>, nodes: map<Uuid, NodeInfo>, policies: seq<PolicySnapshot>, now: int,
                          expectedSeconds: nat, outcomes: seq<Outcome>)
    returns (sites: map<Uuid, Site>, summary: Summary, crashed: bool)
    requires |policies| == |outcomes| == 1 && before.Keys == {policies[0].siteId} && PolicyStored(policies[0], nodes)
    requires Referential(before, nodes) && Orderly(before, policies)
    requires HiddenMove(before, policies[0], outcomes[0], now, expectedSeconds)
    ensures !crashed && sites.Keys == before.Keys
    ensures |MovedSites(before, sites)| == 1
    ensures summary.switched == 0 && Counted(summary) == 1
  {
    HidesOne(before, policies, outcomes, now, expectedSeconds);
    sites, summary, crashed := OnePolicyCycle(before, nodes, policies, now, expectedSeconds, outcomes);
    MovedAtMostOne(before, sites, policies[0].siteId);
  }

  /** Such a cycle exists: one site in step whose primary is offline. */
  lemma HiddenSwitchExists(nodes: map<Uuid, NodeInfo>)
    requires 1 in nodes && 2 in nodes
    ensures var before := map[7 := Site(multiset{Row(1, Primary, 10), Row(2, Standby, 20)}, Targets(1, 2), false)];
      var policy := PolicySnapshot(true, 7, Targets(1, 2), Auto, 3, false, false, Offline, Online, None, None, None);
      && PolicyStored(policy, nodes) && Referential(before, nodes) && Orderly(before, [policy])
      && HiddenMove(before, policy, Outcome(true, LeftOpen), 0, 30)
  {
    var site := Site(multiset{Row(1, Primary, 10), Row(2, Standby, 20)}, Targets(1, 2), false);
    assert SolePrimary(site.rows, Row(1, Primary, 10));
    assert InStep(site);
  }
}
