/**
 * The failover worker and the hub's manual switch acting on one site.
 *
 * A site here has one active policy.  A step is one write to the database, so a manual switch is two; what
 * the worker or the hub had read before it may be out of date by then.  A request that is refused leaves the
 * site as it was.
 */
module Failover {
  import opened Common
  import opened Sorting
  import opened Text
  import opened Bindings

  datatype NodeInfo = NodeInfo(code: string, status: string)

  /** The two nodes an active failover policy names. */
  datatype Targets = Targets(primary: Uuid, standby: Uuid)

  /** What the database holds for one site: binding rows, the policy row, and whether an event is unfinished. */
  datatype Site = Site(rows: multiset<Row>, policy: Targets, openEvent: bool)

  /**
   * What becomes of the event row: closed as it should be, closed as failed although the transaction may
   * have been committed (the answer to the commit was lost), left open because its update failed, or left
   * open by a crash.
   */
  datatype Ending = Closed | Misreported | LeftOpen | Crash

  /** How a worker attempt goes: whether its transaction commits, and how it ends. */
  datatype Outcome = Outcome(commits: bool, ending: Ending)

  datatype Attempt = Switched | Skipped | Failed | Crashed

  /** Bindings and policy agree: distinct nodes, one primary, and it is the policy's primary. */
  ghost predicate InStep(site: Site) {
    && UniqueNodes(site.rows)
    && site.policy.primary != site.policy.standby
    && exists p :: SolePrimary(site.rows, p) && p.nodeId == site.policy.primary
  }

  /** `loaded` is a possible answer to the worker's query: the rows joined with their nodes, in priority order. */
  ghost predicate IsWorkerLoad(loaded: seq<Binding>, rows: multiset<Row>, nodes: map<Uuid, NodeInfo>) {
    && multiset(Rows(loaded)) == rows
    && (forall b :: b in loaded ==> b.row.nodeId in nodes && nodes[b.row.nodeId] == NodeInfo(b.nodeCode, b.nodeStatus))
    && SortedBy(loaded, BindingLe)
  }

  /** `loaded` is a possible answer to the hub's query, which orders by priority only. */
  ghost predicate IsHubLoad(loaded: seq<Row>, rows: multiset<Row>) {
    multiset(loaded) == rows && SortedBy(loaded, RowPriorityLe)
  }

  // ---------------------------------------------------------------- one failover

  /** The transaction: new binding rows, then the policy moved to its next pair if one exists. */
  function ExecuteSiteFailover(site: Site, policy: Targets, loaded: seq<Binding>): Option<Site> {
    var switched := BuildSwitchedBindings(loaded, policy.primary, policy.standby);
    if !DistinctNodes(Rows(switched)) then None   // rejected by the unique constraint
    else
      var next := match SelectNextPolicyStandby(switched, policy.standby)
                  case Some(n) => Targets(policy.standby, n)
                  case None => site.policy;
      Some(site.(rows := multiset(Rows(switched)), policy := next))
  }

  /**
   * The end of an attempt whose transaction would store `executed`.  The update that closes the event
   * comes after the commit: if it fails the attempt counts as failed all the same.
   */
  function Conclude(site: Site, executed: Option<Site>, outcome: Outcome): (Site, Attempt) {
    var switched := outcome.commits && executed.Some?;
    var stored := if switched then executed.value else site;
    match outcome.ending
    case Closed => (stored, if switched then Switched else Failed)
    case Misreported => (stored, Failed)
    case LeftOpen => (stored.(openEvent := true), Failed)
    case Crash => (stored.(openEvent := true), Crashed)
  }

  function TriggerPolicyFailover(site: Site, policy: Targets, loaded: seq<Binding>, outcome: Outcome): (Site, Attempt) {
    if site.openEvent then (site, Skipped)
    else if CurrentPrimaryNodeId(loaded) == Some(policy.standby) then (site, Skipped)
    else Conclude(site, ExecuteSiteFailover(site, policy, loaded), outcome)
  }

  /** `after` is `rows` with both policy nodes replaced: `standby` primary at `pp`, `primary` standby at `dp`. */
  ghost predicate Replaces(rows: multiset<Row>, after: multiset<Row>, policy: Targets, pp: int, dp: int) {
    forall r: Row :: after[r] ==
      if r.nodeId == policy.primary || r.nodeId == policy.standby
      then if r == Row(policy.standby, Primary, pp) || r == Row(policy.primary, Standby, dp) then 1 else 0
      else rows[r]
  }

  lemma FailoverReplaces(loaded: seq<Binding>, policy: Targets)
    requires policy.primary != policy.standby
    ensures Replaces(multiset(Rows(loaded)),
                     multiset(Rows(BuildSwitchedBindings(loaded, policy.primary, policy.standby))),
                     policy, CurrentPrimaryPriority(loaded, policy.primary),
                     DemotedPriority(loaded, policy.primary, policy.standby))
  {
    SwitchedRows(loaded, policy.primary, policy.standby);
    OthersRows(loaded, policy.primary, policy.standby);
  }

  /** Replacing the policy nodes keeps nodes distinct, stores the two new rows, and drops no node. */
  lemma ReplacedRows(rows: multiset<Row>, after: multiset<Row>, policy: Targets, pp: int, dp: int)
    requires UniqueNodes(rows) && policy.primary != policy.standby && Replaces(rows, after, policy, pp, dp)
    ensures UniqueNodes(after)
    ensures Row(policy.standby, Primary, pp) in after && Row(policy.primary, Standby, dp) in after
    ensures forall n :: Bound(after, n) <==> Bound(rows, n) || n == policy.standby || n == policy.primary
  {
    var np, nd := Row(policy.standby, Primary, pp), Row(policy.primary, Standby, dp);
    assert after[np] == 1 && after[nd] == 1;
    forall n ensures Bound(after, n) <==> Bound(rows, n) || n == policy.standby || n == policy.primary {
      if n != policy.primary && n != policy.standby {
        assert forall r: Row :: r.nodeId == n ==> (r in after <==> r in rows);
      }
    }
  }

  /** Nobody but the two policy nodes is primary in what the worker loaded. */
  predicate OnlyPolicyPrimaries(loaded: seq<Binding>, policy: Targets) {
    forall b :: b in loaded && b.row.role.Primary? ==> b.row.nodeId == policy.primary || b.row.nodeId == policy.standby
  }

  /** A site whose rows have a primary row `np` is in step exactly when that is the only one and the policy names it. */
  lemma InStepByPrimary(site: Site, np: Row)
    requires UniqueNodes(site.rows) && np in site.rows && np.role.Primary? && site.policy.primary != site.policy.standby
    ensures InStep(site) <==> SinglePrimary(site.rows) && site.policy.primary == np.nodeId
  {
    if SinglePrimary(site.rows) {
      var p :| SolePrimary(site.rows, p);
      assert p == np;
    }
  }

  /**
   * What a committed failover stores, from any snapshot of the policy and any load of the bindings: it is
   * never rejected by the unique constraint, always finds a next standby, promotes the snapshot's standby,
   * and ends in step exactly when nobody but the two nodes of the snapshot was primary in the load.
   */
  lemma FailoverInStepIff(site: Site, policy: Targets, loaded: seq<Binding>)
    requires UniqueNodes(multiset(Rows(loaded))) && policy.primary != policy.standby
    ensures SelectNextPolicyStandby(BuildSwitchedBindings(loaded, policy.primary, policy.standby), policy.standby).Some?
    ensures var after := ExecuteSiteFailover(site, policy, loaded);
      && after.Some?
      && UniqueNodes(after.value.rows)
      && after.value.policy.primary == policy.standby && after.value.policy.standby != policy.standby
      && Bound(after.value.rows, after.value.policy.standby)
      && after.value.openEvent == site.openEvent
      && (InStep(after.value) <==> OnlyPolicyPrimaries(loaded, policy))
      && Replaces(multiset(Rows(loaded)), after.value.rows, policy, CurrentPrimaryPriority(loaded, policy.primary),
                  DemotedPriority(loaded, policy.primary, policy.standby))
  {
    var Targets(primary, standby) := policy;
    var pp, dp := CurrentPrimaryPriority(loaded, primary), DemotedPriority(loaded, primary, standby);
    var switched := BuildSwitchedBindings(loaded, primary, standby);
    FailoverReplaces(loaded, policy);
    ReplacedRows(multiset(Rows(loaded)), multiset(Rows(switched)), policy, pp, dp);
    UniqueIsDistinct(Rows(switched));
    FailoverFindsNextStandby(loaded, primary, standby);
    NextStandbyIsBest(switched, standby);
    var m :| m in switched && m.row.nodeId == SelectNextPolicyStandby(switched, standby).value && m.row.nodeId != standby;
    RowsMember(switched, m.row);
    FailoverSinglePrimaryIff(loaded, primary, standby);
    InStepByPrimary(ExecuteSiteFailover(site, policy, loaded).value, Row(standby, Primary, pp));
  }

  /** On the current rows of a site in step the condition is that the snapshot names the site's primary. */
  lemma OnlyPolicyPrimariesIff(site: Site, policy: Targets, loaded: seq<Binding>)
    requires InStep(site) && multiset(Rows(loaded)) == site.rows
    ensures CurrentPrimaryNodeId(loaded) == Some(site.policy.primary)
    ensures OnlyPolicyPrimaries(loaded, policy) <==> site.policy.primary == policy.primary || site.policy.primary == policy.standby
  {
    var p :| SolePrimary(site.rows, p) && p.nodeId == site.policy.primary;
    CurrentPrimaryIsSole(loaded, p);
    RowsMember(loaded, p);
    forall b | b in loaded && b.row.role.Primary? ensures b.row == p {
      RowsMember(loaded, b.row);
    }
  }

  /**
   * A failover of a site in step by a snapshot that names its primary stays in step with the promoted
   * node as primary, and loses no node.
   */
  lemma FailoverKeepsStep(site: Site, policy: Targets, loaded: seq<Binding>)
    requires InStep(site) && multiset(Rows(loaded)) == site.rows
    requires policy.primary != policy.standby && site.policy.primary == policy.primary
    ensures var after := ExecuteSiteFailover(site, policy, loaded);
      && after.Some? && InStep(after.value)
      && after.value.policy.primary == policy.standby
      && after.value.openEvent == site.openEvent
      && forall n :: Bound(site.rows, n) ==> Bound(after.value.rows, n)
  {
    OnlyPolicyPrimariesIff(site, policy, loaded);
    FailoverInStepIff(site, policy, loaded);
    var after := ExecuteSiteFailover(site, policy, loaded).value;
    ReplacedRows(site.rows, after.rows, policy, CurrentPrimaryPriority(loaded, policy.primary),
                 DemotedPriority(loaded, policy.primary, policy.standby));
  }

  /** The demoted node as a candidate: its own code and status, as a standby at its new priority. */
  function DemotedCandidate(b: Binding, policy: Targets, loaded: seq<Binding>): Binding {
    Binding(Row(policy.primary, Standby, DemotedPriority(loaded, policy.primary, policy.standby)), b.nodeCode, b.nodeStatus)
  }

  /**
   * The standby a failover puts into the policy, in terms of what was loaded: the most preferred of the other
   * standby nodes and the demoted node, so an online one whenever there is one.
   */
  lemma AdvancedStandbyIsPreferred(site: Site, policy: Targets, loaded: seq<Binding>) returns (m: Binding)
    requires UniqueNodes(multiset(Rows(loaded))) && policy.primary != policy.standby
    ensures ExecuteSiteFailover(site, policy, loaded).Some?
    ensures ExecuteSiteFailover(site, policy, loaded).value.policy == Targets(policy.standby, m.row.nodeId)
    ensures m.row.nodeId != policy.standby && m.row.role.Standby? && (m.row.nodeId != policy.primary ==> m in loaded)
    ensures forall b :: b in loaded && b.row.nodeId == m.row.nodeId == policy.primary ==> m == DemotedCandidate(b, policy, loaded)
    ensures forall b :: b in loaded && b.row.nodeId == policy.primary ==> Preferred(m, DemotedCandidate(b, policy, loaded))
    ensures forall b :: b in loaded && b.row.nodeId != policy.primary && b.row.nodeId != policy.standby && b.row.role.Standby? ==>
              Preferred(m, b)
  {
    FailoverInStepIff(site, policy, loaded);
    var switched := BuildSwitchedBindings(loaded, policy.primary, policy.standby);
    m := NextStandbyIsPreferred(switched, policy.standby);
    SwitchedMembers(loaded, policy.primary, policy.standby, m);
    var demoted := Demoted(loaded, policy.primary, policy.standby);
    SwitchedMembers(loaded, policy.primary, policy.standby, demoted);
    forall b | b in loaded && b.row.nodeId == policy.primary ensures demoted == DemotedCandidate(b, policy, loaded) {
      FindNodeIsTheOne(loaded, b);
    }
    forall b | b in loaded && b.row.nodeId != policy.primary && b.row.nodeId != policy.standby && b.row.role.Standby?
      ensures Preferred(m, b)
    {
      SwitchedMembers(loaded, policy.primary, policy.standby, b);
    }
  }

  /** The failed node is not the next standby while another standby is online. */
  lemma OnlineStandbyIsNext(site: Site, policy: Targets, loaded: seq<Binding>, failed: Binding, other: Binding)
    requires UniqueNodes(multiset(Rows(loaded))) && policy.primary != policy.standby
    requires failed in loaded && failed.row.nodeId == policy.primary && Lower(failed.nodeStatus) != "online"
    requires other in loaded && other.row.nodeId != policy.primary && other.row.nodeId != policy.standby
    requires other.row.role.Standby? && Lower(other.nodeStatus) == "online"
    ensures ExecuteSiteFailover(site, policy, loaded).Some?
    ensures ExecuteSiteFailover(site, policy, loaded).value.policy.standby != policy.primary
  {
    var m := AdvancedStandbyIsPreferred(site, policy, loaded);
    assert Preferred(m, other);
  }

  // ---------------------------------------------------------------- manual switch and rebinding

  /** The node an accepted request of `switch_site_primary` switches to; `None` when it is refused. */
  function AcceptedTarget(nodes: set<Uuid>, loaded: seq<Row>, requested: Option<Uuid>): Option<Uuid> {
    if loaded == [] then None
    else if requested.Some? && requested.value !in nodes then None
    else
      match SwitchTarget(loaded, requested)
      case None => None
      case Some(target) => if HubPrimary(loaded) == target then None else Some(target)
  }

  /** The rows its first write stores. */
  function FirstWrite(loaded: seq<Row>, target: Uuid, keep: bool): seq<Row>
    requires loaded != []
  {
    ManualRows(loaded, target, HubPrimary(loaded), keep)
  }

  /** The policy its second write stores, if any. */
  function SecondWrite(loaded: seq<Row>, target: Uuid, keep: bool): Option<Targets>
    requires loaded != []
  {
    match SelectNextHubStandby(FirstWrite(loaded, target, keep), target)
    case Some(n) => Some(Targets(target, n))
    case None => None
  }

  /** The site after both writes of `switch_site_primary`; `None` when the request is refused. */
  function SwitchSitePrimary(site: Site, nodes: set<Uuid>, loaded: seq<Row>, requested: Option<Uuid>, keep: bool): Option<Site> {
    match AcceptedTarget(nodes, loaded, requested)
    case None => None
    case Some(target) =>
      var policy := match SecondWrite(loaded, target, keep)
                    case Some(t) => t
                    case None => site.policy;
      Some(site.(rows := multiset(FirstWrite(loaded, target, keep)), policy := policy))
  }

  /**
   * A switch request is accepted exactly when the site has bindings and the node it names exists and is not the
   * primary, or it names none and another node is bound.
   */
  lemma SwitchAcceptedIff(nodes: set<Uuid>, loaded: seq<Row>, requested: Option<Uuid>)
    requires SortedBy(loaded, RowPriorityLe)
    ensures AcceptedTarget(nodes, loaded, requested).Some? <==>
      && loaded != []
      && (requested.Some? ==> requested.value in nodes && requested.value != HubPrimary(loaded))
      && (requested.None? ==> exists q :: q in loaded && q.nodeId != HubPrimary(loaded))
    ensures AcceptedTarget(nodes, loaded, requested).Some? && requested.Some? ==>
              AcceptedTarget(nodes, loaded, requested) == requested
  {
    if loaded != [] {
      DefaultTargetIsFirstStandby(loaded);
    }
  }

  /** A switch that keeps the previous primary makes it the policy's standby; any other names the best standby it wrote. */
  lemma SwitchPolicyIs(site: Site, nodes: set<Uuid>, loaded: seq<Row>, requested: Option<Uuid>, keep: bool)
    requires AcceptedTarget(nodes, loaded, requested).Some?
    ensures var target := AcceptedTarget(nodes, loaded, requested).value;
      var after := SwitchSitePrimary(site, nodes, loaded, requested, keep).value;
      && (keep ==> after.policy == Targets(target, HubPrimary(loaded)))
      && (SecondWrite(loaded, target, keep).None? ==> after.policy == site.policy)
      && (SecondWrite(loaded, target, keep).Some? ==>
            after.policy.primary == target
            && exists m :: m in FirstWrite(loaded, target, keep) && m.nodeId == after.policy.standby && m.nodeId != target && m.role.Standby?
                 && forall q :: q in FirstWrite(loaded, target, keep) && q.nodeId != target && q.role.Standby? ==> m.priority <= q.priority)
  {
    var target := AcceptedTarget(nodes, loaded, requested).value;
    HubStandbyIsBest(FirstWrite(loaded, target, keep), target);
    KeptPrimaryIsNextStandby(loaded, target, HubPrimary(loaded));
  }

  /** Some node other than the two involved may serve as standby after the switch. */
  ghost predicate HasSpareNode(loaded: seq<Row>, target: Uuid, previous: Uuid) {
    exists q :: q in loaded && q.nodeId != target && q.nodeId != previous && !q.role.OtherRole?
  }

  lemma HubPrimaryIsSole(loaded: seq<Row>, p: Row)
    requires SolePrimary(multiset(loaded), p)
    ensures loaded != [] && HubPrimary(loaded) == p.nodeId
  {
    assert p in multiset(loaded);
    var f := FindRole(loaded, None, Primary);
    assert f.Some? && f.value in multiset(loaded);
  }

  lemma NextHubStandbyIff(loaded: seq<Row>, target: Uuid, previous: Uuid, keep: bool)
    requires target != previous
    ensures SelectNextHubStandby(ManualRows(loaded, target, previous, keep), target).Some?
       <==> keep || HasSpareNode(loaded, target, previous)
  {
    var rows := ManualRows(loaded, target, previous, keep);
    var c := StandbyRows(rows, target);
    if keep {
      assert rows[1] == Row(previous, Standby, 200);
      assert rows[1] in c;
    } else if HasSpareNode(loaded, target, previous) {
      var q :| q in loaded && q.nodeId != target && q.nodeId != previous && !q.role.OtherRole?;
      var r := ManualTailImage(loaded, target, previous, keep, q);
      assert r in rows && r in c;
    } else if c != [] {
      assert c[0] in c && c[0] in rows;
      var q := ManualTailSource(loaded, target, previous, keep, c[0]);
      assert false;
    }
  }

  /** The site after the first of the switch's two writes: the bindings are saved, the policy is not. */
  function InterruptedSwitch(site: Site, nodes: set<Uuid>, loaded: seq<Row>, requested: Option<Uuid>, keep: bool): Option<Site> {
    match SwitchSitePrimary(site, nodes, loaded, requested, keep)
    case None => None
    case Some(after) => Some(after.(policy := site.policy))
  }

  /**
   * An accepted manual switch, from any load of the bindings and any state of the policy: it makes the
   * target the only primary, and ends in step exactly when a standby remains to put into the policy or
   * the policy named the target already.  Interrupted between its writes, only the latter helps.
   */
  lemma SwitchInStepIff(site: Site, nodes: set<Uuid>, loaded: seq<Row>, requested: Option<Uuid>, keep: bool)
    requires UniqueNodes(multiset(loaded)) && site.policy.primary != site.policy.standby
    requires SwitchSitePrimary(site, nodes, loaded, requested, keep).Some?
    ensures var target := SwitchTarget(loaded, requested).value;
      var after := SwitchSitePrimary(site, nodes, loaded, requested, keep).value;
      && SolePrimary(after.rows, Row(target, Primary, 100))
      && (InStep(after) <==> keep || HasSpareNode(loaded, target, HubPrimary(loaded)) || site.policy.primary == target)
      && (InStep(after.(policy := site.policy)) <==> site.policy.primary == target)
      && (keep ==> forall n :: Bound(multiset(loaded), n) ==> Bound(after.rows, n))
  {
    var target, previous := SwitchTarget(loaded, requested).value, HubPrimary(loaded);
    var rows := ManualRows(loaded, target, previous, keep);
    ManualRowsDistinct(loaded, target, previous, keep);
    DistinctIsUnique(rows);
    ManualRowsPrimary(loaded, target, previous, keep);
    NextHubStandbyIff(loaded, target, previous, keep);
    HubStandbyIsBest(rows, target);
    var after := SwitchSitePrimary(site, nodes, loaded, requested, keep).value;
    var np := Row(target, Primary, 100);
    assert SolePrimary(after.rows, np);
    InStepByPrimary(after, np);
    InStepByPrimary(after.(policy := site.policy), np);
    forall n | keep && Bound(multiset(loaded), n) ensures Bound(after.rows, n) {
      ManualRowsBound(loaded, target, previous, keep, n);
    }
  }

  /** On the current rows of a site in step the policy never names the target already. */
  lemma SwitchKeepsStepIff(site: Site, nodes: set<Uuid>, loaded: seq<Row>, requested: Option<Uuid>, keep: bool)
    requires InStep(site) && multiset(loaded) == site.rows
    requires SwitchSitePrimary(site, nodes, loaded, requested, keep).Some?
    ensures var target := SwitchTarget(loaded, requested).value;
      InStep(SwitchSitePrimary(site, nodes, loaded, requested, keep).value)
      <==> keep || HasSpareNode(loaded, target, site.policy.primary)
    ensures !InStep(InterruptedSwitch(site, nodes, loaded, requested, keep).value)
  {
    var p :| SolePrimary(site.rows, p) && p.nodeId == site.policy.primary;
    HubPrimaryIsSole(loaded, p);
    SwitchInStepIff(site, nodes, loaded, requested, keep);
  }

  /** `normalize_binding_role`; `None` is the rejected text. */
  function NormalizeRole(raw: string): Option<Role> {
    var role := Lower(Trim(raw));
    if role == "primary" then Some(Primary)
    else if role == "standby" then Some(Standby)
    else None
  }

  /** One item of a bind request. */
  datatype RawBinding = RawBinding(nodeId: Uuid, roleText: string, priority: int)

  /** The item with its role text read. */
  datatype ReadBinding = ReadBinding(nodeId: Uuid, role: Option<Role>, priority: int)

  function ReadAll(raw: seq<RawBinding>): seq<ReadBinding> {
    seq(|raw|, i requires 0 <= i < |raw| => ReadBinding(raw[i].nodeId, NormalizeRole(raw[i].roleText), raw[i].priority))
  }

  predicate IsPrimary(item: ReadBinding) {
    item.role == Some(Primary)
  }

  /** The bind requests the hub accepts. */
  ghost predicate AcceptableBindings(items: seq<ReadBinding>) {
    && (forall i :: 0 <= i < |items| ==> items[i].role.Some?)
    && (forall i, j :: 0 <= i < j < |items| ==> items[i].nodeId != items[j].nodeId)
    && OnePrimary(items)
  }

  function NormalRow(item: ReadBinding): Row
    requires item.role.Some?
  {
    Row(item.nodeId, item.role.value, item.priority)
  }

  function NormalRows(items: seq<ReadBinding>): seq<Row>
    requires forall i :: 0 <= i < |items| ==> items[i].role.Some?
  {
    seq(|items|, i requires 0 <= i < |items| => NormalRow(items[i]))
  }

  /** The `i`-th item is the only primary. */
  predicate PrimaryOnlyAt(items: seq<ReadBinding>, i: nat) {
    i < |items| && IsPrimary(items[i]) && forall j :: 0 <= j < |items| && IsPrimary(items[j]) ==> j == i
  }

  ghost predicate OnePrimary(items: seq<ReadBinding>) {
    exists i :: PrimaryOnlyAt(items, i)
  }

  function CountPrimaries(items: seq<ReadBinding>): nat {
    if items == [] then 0
    else CountPrimaries(items[..|items| - 1]) + (if IsPrimary(items[|items| - 1]) then 1 else 0)
  }

  lemma {:induction false} NoPrimaryIff(items: seq<ReadBinding>)
    ensures CountPrimaries(items) == 0 <==> forall k :: 0 <= k < |items| ==> !IsPrimary(items[k])
  {
    if items != [] {
      NoPrimaryIff(items[..|items| - 1]);
    }
  }

  lemma OnlyAtEnd(items: seq<ReadBinding>, n: nat)
    requires |items| == n + 1
    ensures IsPrimary(items[n]) ==> (OnePrimary(items) <==> forall k :: 0 <= k < n ==> !IsPrimary(items[..n][k]))
    ensures !IsPrimary(items[n]) ==> (OnePrimary(items) <==> OnePrimary(items[..n]))
  {
    var rest := items[..n];
    assert forall k :: 0 <= k < n ==> rest[k] == items[k];
    if IsPrimary(items[n]) {
      assert (forall k :: 0 <= k < n ==> !IsPrimary(items[k])) <==> PrimaryOnlyAt(items, n);
      if i: nat :| PrimaryOnlyAt(items, i) {
        assert i == n;
      }
    } else {
      forall i: nat ensures PrimaryOnlyAt(items, i) <==> PrimaryOnlyAt(rest, i) {
      }
    }
  }

  lemma {:induction false} OnePrimaryIff(items: seq<ReadBinding>)
    ensures CountPrimaries(items) == 1 <==> OnePrimary(items)
  {
    if items != [] {
      var n := |items| - 1;
      NoPrimaryIff(items[..n]);
      OnePrimaryIff(items[..n]);
      OnlyAtEnd(items, n);
    }
  }

  /** The loop of `normalize_site_bindings` over items whose role text has been read. */
  method NormalizeItems(items: seq<ReadBinding>) returns (r: Option<seq<Row>>)
    ensures r.Some? <==> AcceptableBindings(items)
    ensures r.Some? ==> multiset(r.value) == multiset(NormalRows(items)) && SortedBy(r.value, RowPriorityLe)
  {
    var rows: seq<Row> := [];
    var seen: set<Uuid> := {};
    var primaryCount := 0;
    for i := 0 to |items|
      invariant |rows| == i
      invariant forall k :: 0 <= k < i ==> items[k].role.Some? && rows[k] == NormalRow(items[k])
      invariant seen == set k | 0 <= k < i :: items[k].nodeId
      invariant forall k, l :: 0 <= k < l < i ==> items[k].nodeId != items[l].nodeId
      invariant primaryCount == CountPrimaries(items[..i])
    {
      assert items[..i + 1][..i] == items[..i];
      if items[i].nodeId in seen {
        return None;
      }
      seen := seen + {items[i].nodeId};
      match items[i].role {
        case None => return None;
        case Some(role) =>
          if role.Primary? {
            primaryCount := primaryCount + 1;
          }
          rows := rows + [Row(items[i].nodeId, role, items[i].priority)];
      }
    }
    assert items[..|items|] == items;
    assert rows == NormalRows(items);
    OnePrimaryIff(items);
    if primaryCount != 1 {
      return None;
    }
    SortPermutes(rows, RowPriorityLe);
    SortSorts(rows, RowPriorityLe);
    r := Some(Sort(rows, RowPriorityLe));
  }

  /** Accepted bindings: exactly the requested rows, lowest priority value first. */
  method NormalizeSiteBindings(request: seq<RawBinding>) returns (r: Option<seq<Row>>)
    ensures r.Some? <==> AcceptableRequest(request)
    ensures r.Some? ==> |r.value| == |request| && SortedBy(r.value, RowPriorityLe)
    ensures r.Some? ==> forall i :: 0 <= i < |request| ==> RowFor(request[i]) in r.value
    ensures r.Some? ==> multiset(r.value) == multiset(NormalRows(ReadAll(request)))
  {
    RequestIsRead(request);
    r := NormalizeItems(ReadAll(request));
    if r.Some? {
      RowsRequested(request, r.value);
    }
  }

  /** The role a request means by its text, whatever the case and the whitespace around it. */
  predicate Says(item: RawBinding, role: string) {
    Lower(Trim(item.roleText)) == role
  }

  /** The request in its own words: known roles, one primary, no node twice. */
  ghost predicate AcceptableRequest(request: seq<RawBinding>) {
    && (forall i :: 0 <= i < |request| ==> Says(request[i], "primary") || Says(request[i], "standby"))
    && (forall i, j :: 0 <= i < j < |request| ==> request[i].nodeId != request[j].nodeId)
    && (exists i :: 0 <= i < |request| && Says(request[i], "primary")
          && forall j :: 0 <= j < |request| && Says(request[j], "primary") ==> j == i)
  }

  /** The row an accepted item asks for. */
  function RowFor(item: RawBinding): Row {
    Row(item.nodeId, if Says(item, "primary") then Primary else Standby, item.priority)
  }

  lemma RoleIsRead(text: string)
    ensures NormalizeRole(text) == Some(Primary) <==> Lower(Trim(text)) == "primary"
    ensures NormalizeRole(text) == Some(Standby) <==> Lower(Trim(text)) == "standby"
    ensures NormalizeRole(text).Some? ==> NormalizeRole(text).value.Primary? || NormalizeRole(text).value.Standby?
  {
    assert |"primary"| == |"standby"| && "primary"[0] != "standby"[0];
  }

  lemma ItemIsRead(request: seq<RawBinding>, i: nat)
    requires i < |request|
    ensures ReadAll(request)[i].nodeId == request[i].nodeId && ReadAll(request)[i].priority == request[i].priority
    ensures IsPrimary(ReadAll(request)[i]) <==> Says(request[i], "primary")
    ensures ReadAll(request)[i].role.Some? <==> Says(request[i], "primary") || Says(request[i], "standby")
    ensures ReadAll(request)[i].role.Some? ==> NormalRow(ReadAll(request)[i]) == RowFor(request[i])
  {
    RoleIsRead(request[i].roleText);
  }

  lemma RequestIsRead(request: seq<RawBinding>)
    ensures AcceptableBindings(ReadAll(request)) <==> AcceptableRequest(request)
  {
    var items := ReadAll(request);
    forall i | 0 <= i < |request|
      ensures items[i].nodeId == request[i].nodeId
      ensures IsPrimary(items[i]) <==> Says(request[i], "primary")
      ensures items[i].role.Some? <==> Says(request[i], "primary") || Says(request[i], "standby")
    {
      ItemIsRead(request, i);
    }
    SamePrimaries(request, items);
  }

  lemma SamePrimaries(request: seq<RawBinding>, items: seq<ReadBinding>)
    requires |items| == |request| && forall i :: 0 <= i < |request| ==> (IsPrimary(items[i]) <==> Says(request[i], "primary"))
    ensures OnePrimary(items) <==>
            exists i :: 0 <= i < |request| && Says(request[i], "primary")
              && forall j :: 0 <= j < |request| && Says(request[j], "primary") ==> j == i
  {
    if OnePrimary(items) {
      var i: nat :| PrimaryOnlyAt(items, i);
      assert Says(request[i], "primary");
    }
    if i :| 0 <= i < |request| && Says(request[i], "primary") && forall j :: 0 <= j < |request| && Says(request[j], "primary") ==> j == i {
      assert PrimaryOnlyAt(items, i);
    }
  }

  lemma RowsRequested(request: seq<RawBinding>, rows: seq<Row>)
    requires AcceptableBindings(ReadAll(request)) && multiset(rows) == multiset(NormalRows(ReadAll(request)))
    ensures |rows| == |request| && forall i :: 0 <= i < |request| ==> RowFor(request[i]) in rows
  {
    var wanted := NormalRows(ReadAll(request));
    assert |multiset(rows)| == |multiset(wanted)|;
    forall i | 0 <= i < |request| ensures RowFor(request[i]) in rows {
      ItemIsRead(request, i);
      assert wanted[i] in multiset(rows);
    }
  }

  /** What the hub accepts are distinct nodes with one primary. */
  lemma AcceptedRowsAreValid(items: seq<ReadBinding>)
    requires AcceptableBindings(items)
    ensures UniqueNodes(multiset(NormalRows(items))) && SinglePrimary(multiset(NormalRows(items)))
  {
    var rows := NormalRows(items);
    DistinctIsUnique(rows);
    var i: nat :| PrimaryOnlyAt(items, i);
    assert rows[i] in multiset(rows);
    forall r | r in multiset(rows) && r.role.Primary? ensures r == rows[i] {
      var j :| 0 <= j < |rows| && rows[j] == r;
      assert IsPrimary(items[j]);
    }
    assert SolePrimary(multiset(rows), rows[i]);
  }

  // ---------------------------------------------------------------- runs

  /** `pending` are the policy updates that running switches have yet to write. */
  datatype World = World(site: Site, nodes: map<Uuid, NodeInfo>, pending: multiset<Targets>)

  /**
   * `policy` is the worker's snapshot of the policy row and `loaded` what it read of the bindings, `rows`
   * what the hub read: all from the database, at some earlier moment.
   */
  datatype Step =
    | WorkerAttempt(policy: Targets, loaded: seq<Binding>, outcome: Outcome)
    | SaveSwitched(rows: seq<Row>, requested: Option<Uuid>, keep: bool)     // the first write of a manual switch
    | UpdatePolicy(targets: Targets)                // its second write
    | AbandonUpdate(targets: Targets)               // the request ends before its second write
    | SaveSite(bound: seq<Row>)                     // any other save of the site: a bind request, an edit, a publish
    | NodesChange(nodes: map<Uuid, NodeInfo>)       // heartbeats, edits, new nodes

  /** What the worker holds can have come from the database, whose constraints exclude anything else. */
  ghost predicate PossibleAttempt(policy: Targets, loaded: seq<Binding>) {
    policy.primary != policy.standby && UniqueNodes(multiset(Rows(loaded)))
  }

  function AddUpdate(pending: multiset<Targets>, update: Option<Targets>): multiset<Targets> {
    if update.Some? then pending + multiset{update.value} else pending
  }

  /** The next state; a step whose input cannot have come from the database is refused. */
  ghost function Next(w: World, step: Step): World {
    match step
    case WorkerAttempt(policy, loaded, outcome) =>
      if !PossibleAttempt(policy, loaded) then w
      else w.(site := TriggerPolicyFailover(w.site, policy, loaded, outcome).0)
    case SaveSwitched(rows, requested, keep) =>
      if !UniqueNodes(multiset(rows)) || AcceptedTarget(w.nodes.Keys, rows, requested).None? then w
      else
        var target := AcceptedTarget(w.nodes.Keys, rows, requested).value;
        w.(site := w.site.(rows := multiset(FirstWrite(rows, target, keep))),
           pending := AddUpdate(w.pending, SecondWrite(rows, target, keep)))
    case UpdatePolicy(t) =>
      if t !in w.pending then w else w.(site := w.site.(policy := t), pending := w.pending - multiset{t})
    case AbandonUpdate(t) => w.(pending := w.pending - multiset{t})
    case SaveSite(rows) =>
      if !UniqueNodes(multiset(rows)) then w else w.(site := w.site.(rows := multiset(rows)))
    case NodesChange(nodes) => w.(nodes := nodes)
  }

  ghost function Run(w: World, steps: seq<Step>): World
    decreases |steps|
  {
    if steps == [] then w else Run(Next(w, steps[0]), steps[1..])
  }

  /** What the constraints of the database promise: distinct bound nodes, and two nodes in every policy. */
  ghost predicate Stored(w: World) {
    && UniqueNodes(w.site.rows)
    && w.site.policy.primary != w.site.policy.standby
    && forall t :: t in w.pending ==> t.primary != t.standby
  }

  /** The policy names `node` as primary, or a pending update will make it. */
  ghost predicate Named(policy: Targets, pending: multiset<Targets>, node: Uuid) {
    policy.primary == node || exists t :: t in pending && t.primary == node
  }

  /** In step, or about to be: there is one primary, and the policy or a pending update names it. */
  ghost predicate Settling(w: World) {
    exists p :: SolePrimary(w.site.rows, p) && Named(w.site.policy, w.pending, p.nodeId)
  }

  /** Once no update is pending, that is being in step. */
  lemma SettledIsInStep(w: World)
    requires Stored(w) && w.pending == multiset{}
    ensures Settling(w) <==> InStep(w.site)
  {
  }

  /** The attempt reaches its transaction, and the transaction commits. */
  predicate Commits(site: Site, policy: Targets, loaded: seq<Binding>, outcome: Outcome) {
    !site.openEvent && CurrentPrimaryNodeId(loaded) != Some(policy.standby) && outcome.commits
  }

  /** The guard of a step: what has to be checked for the site to stay in step, or on its way there. */
  ghost predicate StepSafe(w: World, step: Step) {
    match step
    case WorkerAttempt(policy, loaded, outcome) =>
      PossibleAttempt(policy, loaded) && Commits(w.site, policy, loaded, outcome) ==> OnlyPolicyPrimaries(loaded, policy)
    case SaveSwitched(rows, requested, keep) =>
      UniqueNodes(multiset(rows)) && AcceptedTarget(w.nodes.Keys, rows, requested).Some? ==>
        var target := AcceptedTarget(w.nodes.Keys, rows, requested).value;
        keep || HasSpareNode(rows, target, HubPrimary(rows)) || Named(w.site.policy, w.pending, target)
    case UpdatePolicy(t) =>
      t in w.pending ==> forall p :: SolePrimary(w.site.rows, p) ==> Named(t, w.pending - multiset{t}, p.nodeId)
    case AbandonUpdate(t) =>
      forall p :: SolePrimary(w.site.rows, p) && t.primary == p.nodeId ==> Named(w.site.policy, w.pending - multiset{t}, p.nodeId)
    case SaveSite(rows) =>
      UniqueNodes(multiset(rows)) ==> exists p :: SolePrimary(multiset(rows), p) && Named(w.site.policy, w.pending, p.nodeId)
    case NodesChange(_) => true
  }

  /** What a possible attempt stores, apart from the event: the failover if it commits, nothing otherwise. */
  lemma AttemptStores(site: Site, policy: Targets, loaded: seq<Binding>, outcome: Outcome)
    requires PossibleAttempt(policy, loaded)
    ensures ExecuteSiteFailover(site, policy, loaded).Some?
    ensures var executed := ExecuteSiteFailover(site, policy, loaded).value;
      var (after, attempt) := TriggerPolicyFailover(site, policy, loaded, outcome);
      && after.rows == (if Commits(site, policy, loaded, outcome) then executed.rows else site.rows)
      && after.policy == (if Commits(site, policy, loaded, outcome) then executed.policy else site.policy)
      && (attempt == Switched <==> Commits(site, policy, loaded, outcome) && outcome.ending.Closed?)
      && (attempt == Skipped ==> after == site)
      && (attempt == Failed ==> after == site || after.openEvent || outcome.ending.Misreported?)
      && (attempt == Crashed <==> !site.openEvent && CurrentPrimaryNodeId(loaded) != Some(policy.standby) && outcome.ending.Crash?)
      && (after.openEvent <==> site.openEvent || (CurrentPrimaryNodeId(loaded) != Some(policy.standby) && (outcome.ending.LeftOpen? || outcome.ending.Crash?)))
  {
    FailoverExecutes(site, policy, loaded);
    ConcludeStores(site, ExecuteSiteFailover(site, policy, loaded).value, outcome);
  }

  lemma FailoverExecutes(site: Site, policy: Targets, loaded: seq<Binding>)
    requires PossibleAttempt(policy, loaded)
    ensures ExecuteSiteFailover(site, policy, loaded).Some?
    ensures ExecuteSiteFailover(site, policy, loaded).value.openEvent == site.openEvent
  {
    FailoverInStepIff(site, policy, loaded);
  }

  lemma ConcludeStores(site: Site, executed: Site, outcome: Outcome)
    ensures var (after, attempt) := Conclude(site, Some(executed), outcome);
      && after.rows == (if outcome.commits then executed.rows else site.rows)
      && after.policy == (if outcome.commits then executed.policy else site.policy)
      && (attempt == Switched <==> outcome.commits && outcome.ending.Closed?)
      && (attempt == Failed ==> after == site || after.openEvent || outcome.ending.Misreported?)
      && (attempt == Crashed <==> outcome.ending.Crash?)
      && attempt != Skipped
      && (!site.openEvent && !executed.openEvent ==> (after.openEvent <==> outcome.ending.LeftOpen? || outcome.ending.Crash?))
  {
  }

  /** The event plays no part in being in step. */
  lemma SameRowsSameStep(a: Site, b: Site)
    requires a.rows == b.rows && a.policy == b.policy
    ensures InStep(a) <==> InStep(b)
  {
  }

  lemma AttemptInStepIff(site: Site, policy: Targets, loaded: seq<Binding>, outcome: Outcome)
    requires InStep(site) && PossibleAttempt(policy, loaded)
    ensures InStep(TriggerPolicyFailover(site, policy, loaded, outcome).0)
       <==> (Commits(site, policy, loaded, outcome) ==> OnlyPolicyPrimaries(loaded, policy))
  {
    AttemptStores(site, policy, loaded, outcome);
    FailoverInStepIff(site, policy, loaded);
    var after := TriggerPolicyFailover(site, policy, loaded, outcome).0;
    if Commits(site, policy, loaded, outcome) {
      SameRowsSameStep(after, ExecuteSiteFailover(site, policy, loaded).value);
    } else {
      SameRowsSameStep(after, site);
    }
  }

  /** What a committed failover stores is settling exactly when it is in step: pending updates cannot repair it. */
  lemma FailoverSettlesIff(w: World, policy: Targets, loaded: seq<Binding>, after: Site)
    requires PossibleAttempt(policy, loaded) && ExecuteSiteFailover(w.site, policy, loaded).Some?
    requires after.rows == ExecuteSiteFailover(w.site, policy, loaded).value.rows
    requires after.policy == ExecuteSiteFailover(w.site, policy, loaded).value.policy
    ensures Settling(w.(site := after)) <==> OnlyPolicyPrimaries(loaded, policy)
  {
    FailoverInStepIff(w.site, policy, loaded);
    FailoverSinglePrimaryIff(loaded, policy.primary, policy.standby);
    var executed := ExecuteSiteFailover(w.site, policy, loaded).value;
    if InStep(executed) {
      var p :| SolePrimary(executed.rows, p) && p.nodeId == executed.policy.primary;
      assert Named(after.policy, w.pending, p.nodeId);
    }
  }

  lemma AttemptSafeIff(w: World, policy: Targets, loaded: seq<Binding>, outcome: Outcome)
    requires Settling(w)
    ensures Settling(Next(w, WorkerAttempt(policy, loaded, outcome))) <==> StepSafe(w, WorkerAttempt(policy, loaded, outcome))
  {
    if PossibleAttempt(policy, loaded) {
      AttemptStores(w.site, policy, loaded, outcome);
      var after := TriggerPolicyFailover(w.site, policy, loaded, outcome).0;
      if Commits(w.site, policy, loaded, outcome) {
        FailoverSettlesIff(w, policy, loaded, after);
      } else {
        var p :| SolePrimary(w.site.rows, p) && Named(w.site.policy, w.pending, p.nodeId);
        assert SolePrimary(after.rows, p) && Named(after.policy, w.pending, p.nodeId);
      }
    }
  }

  lemma SoleByRow(rows: multiset<Row>, p: Row, q: Row)
    requires SolePrimary(rows, p) && SolePrimary(rows, q)
    ensures p == q
  {
    assert q in rows;
  }

  lemma NamedAfterAdd(policy: Targets, pending: multiset<Targets>, update: Option<Targets>, node: Uuid)
    ensures Named(policy, AddUpdate(pending, update), node) <==> Named(policy, pending, node) || (update.Some? && update.value.primary == node)
  {
    if update.Some? {
      assert update.value in AddUpdate(pending, update);
      assert forall t :: t in AddUpdate(pending, update) <==> t in pending || t == update.value;
    }
  }

  lemma SaveSwitchedSafeIff(w: World, rows: seq<Row>, requested: Option<Uuid>, keep: bool)
    requires Settling(w)
    ensures Settling(Next(w, SaveSwitched(rows, requested, keep))) <==> StepSafe(w, SaveSwitched(rows, requested, keep))
  {
    if UniqueNodes(multiset(rows)) && AcceptedTarget(w.nodes.Keys, rows, requested).Some? {
      var target := AcceptedTarget(w.nodes.Keys, rows, requested).value;
      var update := SecondWrite(rows, target, keep);
      var np, stored := Row(target, Primary, 100), multiset(FirstWrite(rows, target, keep));
      ManualRowsPrimary(rows, target, HubPrimary(rows), keep);
      NextHubStandbyIff(rows, target, HubPrimary(rows), keep);
      NamedAfterAdd(w.site.policy, w.pending, update, target);
      var w' := Next(w, SaveSwitched(rows, requested, keep));
      assert w'.site.rows == stored && w'.pending == AddUpdate(w.pending, update) && w'.site.policy == w.site.policy;
      assert SolePrimary(stored, np);
      forall q | SolePrimary(stored, q) ensures q == np {
        SoleByRow(stored, q, np);
      }
    }
  }

  lemma UpdateSafeIff(w: World, t: Targets)
    requires Settling(w)
    ensures Settling(Next(w, UpdatePolicy(t))) <==> StepSafe(w, UpdatePolicy(t))
    ensures Settling(Next(w, AbandonUpdate(t))) <==> StepSafe(w, AbandonUpdate(t))
  {
    var p :| SolePrimary(w.site.rows, p) && Named(w.site.policy, w.pending, p.nodeId);
    var rest := w.pending - multiset{t};
    forall q | SolePrimary(w.site.rows, q) ensures q == p {
      SoleByRow(w.site.rows, q, p);
    }
    assert forall u :: u in w.pending && u != t ==> u in rest;
    assert t.primary != p.nodeId ==> Named(w.site.policy, rest, p.nodeId);
  }

  /** One step keeps the site in step, or on its way there, if and only if its guard holds, however stale what it had read. */
  lemma StepKeepsStepIff(w: World, step: Step)
    requires Settling(w)
    ensures Settling(Next(w, step)) <==> StepSafe(w, step)
  {
    match step
    case WorkerAttempt(policy, loaded, outcome) => AttemptSafeIff(w, policy, loaded, outcome);
    case SaveSwitched(rows, requested, keep) => SaveSwitchedSafeIff(w, rows, requested, keep);
    case UpdatePolicy(t) => UpdateSafeIff(w, t);
    case AbandonUpdate(t) => UpdateSafeIff(w, t);
    case SaveSite(rows) =>
    case NodesChange(_) =>
  }

  lemma StepKeepsStored(w: World, step: Step)
    requires Stored(w)
    ensures Stored(Next(w, step))
  {
    match step {
      case WorkerAttempt(policy, loaded, outcome) =>
        if PossibleAttempt(policy, loaded) {
          AttemptKeepsConstraints(w.site, policy, loaded, outcome);
        }
      case SaveSwitched(rows, requested, keep) =>
        SaveSwitchedKeepsStored(w, rows, requested, keep);
      case _ =>
    }
  }

  lemma SaveSwitchedKeepsStored(w: World, rows: seq<Row>, requested: Option<Uuid>, keep: bool)
    requires Stored(w)
    ensures Stored(Next(w, SaveSwitched(rows, requested, keep)))
  {
    if UniqueNodes(multiset(rows)) && AcceptedTarget(w.nodes.Keys, rows, requested).Some? {
      var target := AcceptedTarget(w.nodes.Keys, rows, requested).value;
      SwitchStores(rows, target, keep);
      assert forall t :: t in AddUpdate(w.pending, SecondWrite(rows, target, keep)) ==>
               t in w.pending || SecondWrite(rows, target, keep) == Some(t);
    }
  }

  lemma AttemptKeepsConstraints(site: Site, policy: Targets, loaded: seq<Binding>, outcome: Outcome)
    requires UniqueNodes(site.rows) && site.policy.primary != site.policy.standby && PossibleAttempt(policy, loaded)
    ensures var after := TriggerPolicyFailover(site, policy, loaded, outcome).0;
      UniqueNodes(after.rows) && after.policy.primary != after.policy.standby
  {
    AttemptStores(site, policy, loaded, outcome);
    FailoverInStepIff(site, policy, loaded);
  }

  /** What the two writes of a switch store respects the constraints. */
  lemma SwitchStores(rows: seq<Row>, target: Uuid, keep: bool)
    requires UniqueNodes(multiset(rows)) && rows != [] && HubPrimary(rows) != target
    ensures UniqueNodes(multiset(FirstWrite(rows, target, keep)))
    ensures SecondWrite(rows, target, keep).Some? ==>
              SecondWrite(rows, target, keep).value.primary == target && SecondWrite(rows, target, keep).value.standby != target
  {
    ManualRowsDistinct(rows, target, HubPrimary(rows), keep);
    DistinctIsUnique(FirstWrite(rows, target, keep));
    HubStandbyIsBest(FirstWrite(rows, target, keep), target);
  }

  /** The site is settling now and after every step. */
  ghost predicate AlwaysSettling(w: World, steps: seq<Step>)
    decreases |steps|
  {
    Settling(w) && (steps == [] || AlwaysSettling(Next(w, steps[0]), steps[1..]))
  }

  /** Every step meets its guard in the state it finds. */
  ghost predicate AlwaysSafe(w: World, steps: seq<Step>)
    decreases |steps|
  {
    steps == [] || (StepSafe(w, steps[0]) && AlwaysSafe(Next(w, steps[0]), steps[1..]))
  }

  /**
   * Main theorem, both ways: a run that starts in step stays in step or on its way there throughout if and
   * only if every step meets its guard; it is then in step whenever no policy update is pending.
   */
  lemma {:induction false} RunInStepIff(w: World, steps: seq<Step>)
    requires Stored(w) && Settling(w)
    ensures AlwaysSettling(w, steps) <==> AlwaysSafe(w, steps)
    ensures AlwaysSafe(w, steps) && Run(w, steps).pending == multiset{} ==> InStep(Run(w, steps).site)
    decreases |steps|
  {
    if steps == [] {
      if w.pending == multiset{} {
        SettledIsInStep(w);
      }
    } else {
      StepKeepsStepIff(w, steps[0]);
      StepKeepsStored(w, steps[0]);
      if Settling(Next(w, steps[0])) {
        RunInStepIff(Next(w, steps[0]), steps[1..]);
      }
    }
  }

  // ---------------------------------------------------------------- runs without interleaving

  /**
   * Steps that act on the current rows with no switch half done: an attempt whose snapshot names the site's
   * primary, the two writes of a manual switch that keeps the previous primary, a node change.
   */
  ghost predicate Undisturbed(w: World, step: Step) {
    match step
    case WorkerAttempt(policy, loaded, _) =>
      && w.pending == multiset{} && PossibleAttempt(policy, loaded) && IsWorkerLoad(loaded, w.site.rows, w.nodes)
      && (w.site.policy.primary == policy.primary || w.site.policy.primary == policy.standby)
    case SaveSwitched(rows, _, keep) => w.pending == multiset{} && keep && IsHubLoad(rows, w.site.rows)
    case UpdatePolicy(t) => t in w.pending
    case NodesChange(_) => true
    case _ => false
  }

  ghost predicate AlwaysUndisturbed(w: World, steps: seq<Step>)
    decreases |steps|
  {
    steps == [] || (Undisturbed(w, steps[0]) && AlwaysUndisturbed(Next(w, steps[0]), steps[1..]))
  }

  /** In step, or one policy update away from it. */
  ghost predicate Calm(w: World) {
    (w.pending == multiset{} && InStep(w.site)) || (exists t :: w.pending == multiset{t} && InStep(w.site.(policy := t)))
  }

  /** An undisturbed attempt stays in step and loses no node; it leaves the rows alone or stores those of a failover. */
  lemma WorkerAttemptKeepsStep(w: World, policy: Targets, loaded: seq<Binding>, outcome: Outcome)
    requires InStep(w.site) && Undisturbed(w, WorkerAttempt(policy, loaded, outcome))
    ensures var after := TriggerPolicyFailover(w.site, policy, loaded, outcome).0;
      && InStep(after)
      && (forall n :: Bound(w.site.rows, n) ==> Bound(after.rows, n))
      && (after.rows == w.site.rows ||
          (w.site.policy.primary == policy.primary
           && ExecuteSiteFailover(w.site, policy, loaded).Some? && after.rows == ExecuteSiteFailover(w.site, policy, loaded).value.rows))
  {
    OnlyPolicyPrimariesIff(w.site, policy, loaded);
    AttemptInStepIff(w.site, policy, loaded, outcome);
    AttemptStores(w.site, policy, loaded, outcome);
    if w.site.policy.primary == policy.primary {
      FailoverKeepsStep(w.site, policy, loaded);
    }
  }

  /** The first write of a keeping switch leaves the site one update away from being in step, and every node bound. */
  lemma SaveSwitchedKeepsCalm(w: World, rows: seq<Row>, requested: Option<Uuid>)
    requires InStep(w.site) && Undisturbed(w, SaveSwitched(rows, requested, true))
    ensures Calm(Next(w, SaveSwitched(rows, requested, true)))
    ensures forall n :: Bound(w.site.rows, n) ==> Bound(Next(w, SaveSwitched(rows, requested, true)).site.rows, n)
  {
    var w' := Next(w, SaveSwitched(rows, requested, true));
    if AcceptedTarget(w.nodes.Keys, rows, requested).Some? {
      SwitchInStepIff(w.site, w.nodes.Keys, rows, requested, true);
      var target := AcceptedTarget(w.nodes.Keys, rows, requested).value;
      NextHubStandbyIff(rows, target, HubPrimary(rows), true);
      var t := SecondWrite(rows, target, true).value;
      assert w'.pending == multiset{t};
      SameRowsSameStep(w'.site.(policy := t), SwitchSitePrimary(w.site, w.nodes.Keys, rows, requested, true).value);
    }
  }

  lemma UndisturbedKeepsCalm(w: World, step: Step)
    requires Calm(w) && Undisturbed(w, step)
    ensures Calm(Next(w, step))
    ensures forall n :: Bound(w.site.rows, n) ==> Bound(Next(w, step).site.rows, n)
  {
    match step {
      case WorkerAttempt(policy, loaded, outcome) => WorkerAttemptKeepsStep(w, policy, loaded, outcome);
      case SaveSwitched(rows, requested, keep) => SaveSwitchedKeepsCalm(w, rows, requested);
      case UpdatePolicy(t) =>
        assert w.pending != multiset{};
        var u :| w.pending == multiset{u} && InStep(w.site.(policy := u));
        assert t == u && w.pending - multiset{t} == multiset{};
      case NodesChange(_) =>
    }
  }

  /**
   * Main theorem: any mix of worker attempts (committed or not, their events closed, misreported, left open
   * or cut off by a crash), manual switches that keep the previous primary, and node changes leaves distinct
   * nodes, one primary that is the policy's primary once the switch under way has written its policy, a
   * different standby, and every node that was ever bound.
   */
  lemma {:induction false} RunKeepsStep(w: World, steps: seq<Step>)
    requires Calm(w) && AlwaysUndisturbed(w, steps)
    ensures Calm(Run(w, steps))
    ensures forall n :: Bound(w.site.rows, n) ==> Bound(Run(w, steps).site.rows, n)
    decreases |steps|
  {
    if steps != [] {
      UndisturbedKeepsCalm(w, steps[0]);
      RunKeepsStep(Next(w, steps[0]), steps[1..]);
    }
  }

  /** The two writes of a switch with nothing in between are the whole switch. */
  lemma UndisturbedSwitch(w: World, rows: seq<Row>, requested: Option<Uuid>, keep: bool)
    requires UniqueNodes(multiset(rows)) && AcceptedTarget(w.nodes.Keys, rows, requested).Some?
    ensures var target := AcceptedTarget(w.nodes.Keys, rows, requested).value;
      var whole := SwitchSitePrimary(w.site, w.nodes.Keys, rows, requested, keep).value;
      var saved := Next(w, SaveSwitched(rows, requested, keep));
      match SecondWrite(rows, target, keep)
      case None => saved == w.(site := whole)
      case Some(t) => Next(saved, UpdatePolicy(t)) == w.(site := whole)
  {
    var target := AcceptedTarget(w.nodes.Keys, rows, requested).value;
    var first := w.site.(rows := multiset(FirstWrite(rows, target, keep)));
    assert Next(w, SaveSwitched(rows, requested, keep)) == World(first, w.nodes, AddUpdate(w.pending, SecondWrite(rows, target, keep)));
    match SecondWrite(rows, target, keep)
    case None =>
    case Some(t) => UpdateApplies(World(first, w.nodes, w.pending), t);
  }

  lemma UpdateApplies(w: World, t: Targets)
    ensures Next(w.(pending := w.pending + multiset{t}), UpdatePolicy(t)) == w.(site := w.site.(policy := t))
  {
    assert w.pending + multiset{t} - multiset{t} == w.pending;
  }

  /** The way back: from any state of bindings and policy, a whole switch that keeps the previous primary ends in step. */
  lemma KeepingSwitchRestoresStep(w: World, rows: seq<Row>, requested: Option<Uuid>)
    requires w.site.policy.primary != w.site.policy.standby && UniqueNodes(multiset(rows))
    requires AcceptedTarget(w.nodes.Keys, rows, requested).Some?
    ensures InStep(SwitchSitePrimary(w.site, w.nodes.Keys, rows, requested, true).value)
  {
    SwitchInStepIff(w.site, w.nodes.Keys, rows, requested, true);
  }

  function WithoutWorker(steps: seq<Step>): seq<Step> {
    if steps == [] then []
    else (if steps[0].WorkerAttempt? then [] else [steps[0]]) + WithoutWorker(steps[1..])
  }

  /** A crash that leaves an event open disables the worker for that policy in every later state. */
  lemma {:induction false} OpenEventDisablesWorker(w: World, steps: seq<Step>)
    requires w.site.openEvent
    ensures Run(w, steps) == Run(w, WithoutWorker(steps))
    ensures Run(w, steps).site.openEvent
    decreases |steps|
  {
    if steps != [] {
      OpenEventDisablesWorker(Next(w, steps[0]), steps[1..]);
      if steps[0].WorkerAttempt? {
        assert WithoutWorker(steps) == WithoutWorker(steps[1..]);
      } else {
        assert WithoutWorker(steps)[1..] == WithoutWorker(steps[1..]);
      }
    }
  }

  // ---------------------------------------------------------------- priorities

  ghost predicate PrioritiesWithin(rows: multiset<Row>, bound: int) {
    forall r :: r in rows ==> r.priority <= bound
  }

  /** The two priorities a failover of a site in step computes. */
  lemma FailoverComputes(site: Site, policy: Targets, loaded: seq<Binding>, p: Row, bound: int)
    requires InStep(site) && multiset(Rows(loaded)) == site.rows && SolePrimary(site.rows, p)
    requires site.policy.primary == policy.primary && PrioritiesWithin(site.rows, bound) && p.priority + 10 <= bound
    ensures p.nodeId == policy.primary
    ensures CurrentPrimaryPriority(loaded, policy.primary) == p.priority
    ensures p.priority + 10 <= DemotedPriority(loaded, policy.primary, policy.standby) <= bound
  {
    var q :| SolePrimary(site.rows, q) && q.nodeId == site.policy.primary;
    assert q in site.rows;
    CurrentPrimaryIsSole(loaded, p);
    match FindNode(loaded, policy.standby) {
      case Some(b) => RowsMember(loaded, b.row);
      case None =>
    }
  }

  /** One failover keeps the primary's priority, ranks the demoted node at least ten later, and respects the bound. */
  lemma FailoverPriorities(site: Site, policy: Targets, loaded: seq<Binding>, p: Row, bound: int)
    requires InStep(site) && multiset(Rows(loaded)) == site.rows && SolePrimary(site.rows, p)
    requires policy.primary != policy.standby && site.policy.primary == policy.primary
    requires PrioritiesWithin(site.rows, bound) && p.priority + 10 <= bound
    ensures var after := ExecuteSiteFailover(site, policy, loaded);
      && after.Some?
      && SolePrimary(after.value.rows, Row(policy.standby, Primary, p.priority))
      && PrioritiesWithin(after.value.rows, bound)
      && exists d :: d in after.value.rows && d.nodeId == policy.primary && d.priority >= p.priority + 10
  {
    FailoverInStepIff(site, policy, loaded);
    FailoverKeepsStep(site, policy, loaded);
    FailoverComputes(site, policy, loaded, p, bound);
    var after := ExecuteSiteFailover(site, policy, loaded).value.rows;
    var dp := DemotedPriority(loaded, policy.primary, policy.standby);
    ReplacedRows(site.rows, after, policy, p.priority, dp);
    forall r | r in after ensures r.priority <= bound {
      assert r in site.rows || r == Row(policy.standby, Primary, p.priority) || r == Row(policy.primary, Standby, dp);
    }
    assert Row(policy.primary, Standby, dp) in after;
  }

  /** The one sum an attempt computes, if it gets that far, fits a signed 32-bit integer. */
  ghost predicate SumFits(w: World, step: Step) {
    step.WorkerAttempt? && !w.site.openEvent && CurrentPrimaryNodeId(step.loaded) != Some(step.policy.standby) ==>
      CurrentPrimaryPriority(step.loaded, step.policy.primary) + 10 <= I32_MAX
  }

  ghost predicate SumsAlwaysFit(w: World, steps: seq<Step>)
    decreases |steps|
  {
    steps == [] || (SumFits(w, steps[0]) && SumsAlwaysFit(Next(w, steps[0]), steps[1..]))
  }

  /** One worker attempt or node change: the sole primary keeps its priority, whichever node holds it. */
  lemma FailoverBoundsPriorities(w: World, step: Step, p: Row, maximum: int) returns (p': Row)
    requires InStep(w.site) && SolePrimary(w.site.rows, p) && PrioritiesWithin(w.site.rows, maximum)
    requires Undisturbed(w, step) && (step.WorkerAttempt? || step.NodesChange?)
    ensures InStep(Next(w, step).site) && SolePrimary(Next(w, step).site.rows, p') && p'.priority == p.priority
    ensures PrioritiesWithin(Next(w, step).site.rows, Max(maximum, p.priority + 10))
    ensures p.priority + 10 <= I32_MAX ==> SumFits(w, step)
  {
    var w', bound := Next(w, step), Max(maximum, p.priority + 10);
    p' := p;
    match step {
      case WorkerAttempt(policy, loaded, outcome) =>
        WorkerAttemptKeepsStep(w, policy, loaded, outcome);
        OnlyPolicyPrimariesIff(w.site, policy, loaded);
        if w.site.policy.primary == policy.primary {
          FailoverComputes(w.site, policy, loaded, p, bound);
        }
        if w'.site.rows != w.site.rows {
          FailoverPriorities(w.site, policy, loaded, p, bound);
          p' := Row(policy.standby, Primary, p.priority);
        }
      case NodesChange(_) =>
    }
  }

  /**
   * Over any number of failovers the primary keeps the priority it started with and no priority ever
   * exceeds max(initial maximum, P + 10); if P + 10 fits a signed 32-bit integer, no sum ever overflows.
   */
  lemma {:induction false} FailoversBoundPriorities(w: World, steps: seq<Step>, p: Row, maximum: int)
    requires InStep(w.site) && SolePrimary(w.site.rows, p) && PrioritiesWithin(w.site.rows, maximum)
    requires AlwaysUndisturbed(w, steps) && forall i :: 0 <= i < |steps| ==> steps[i].WorkerAttempt? || steps[i].NodesChange?
    ensures exists q :: SolePrimary(Run(w, steps).site.rows, q) && q.priority == p.priority
    ensures PrioritiesWithin(Run(w, steps).site.rows, Max(maximum, p.priority + 10))
    ensures p.priority + 10 <= I32_MAX ==> SumsAlwaysFit(w, steps)
    decreases |steps|
  {
    if steps != [] {
      var p' := FailoverBoundsPriorities(w, steps[0], p, maximum);
      FailoversBoundPriorities(Next(w, steps[0]), steps[1..], p', Max(maximum, p.priority + 10));
    }
  }

  // ---------------------------------------------------------------- what breaks it

  /** Two active policies on one site end with two primaries. */
  lemma TwoPoliciesBreakSinglePrimary()
    ensures var loaded := [Binding(Row(1, Primary, 10), "a", "offline"),
                           Binding(Row(2, Standby, 20), "b", "online"),
                           Binding(Row(3, Standby, 30), "c", "online")];
      var once := BuildSwitchedBindings(loaded, 1, 2);
      && SinglePrimary(multiset(Rows(loaded)))
      && !SinglePrimary(multiset(Rows(BuildSwitchedBindings(once, 1, 3))))
  {
    var a, b, c := Binding(Row(1, Primary, 10), "a", "offline"), Binding(Row(2, Standby, 20), "b", "online"),
                   Binding(Row(3, Standby, 30), "c", "online");
    var loaded := [a, b, c];
    assert Rows(loaded) == [a.row, b.row, c.row];
    assert SolePrimary(multiset(Rows(loaded)), a.row);
    var once := BuildSwitchedBindings(loaded, 1, 2);
    var promoted := Promoted(loaded, 1, 2);
    SortMembers(Others(loaded, 1, 2) + [promoted] + [Demoted(loaded, 1, 2)], BindingLe, promoted);
    assert promoted in once && promoted.row.role.Primary? && promoted.row.nodeId == 2;
    FailoverSinglePrimaryIff(once, 1, 3);
  }

  lemma TwoNodeSite(a: Row, b: Row)
    requires a.role.Primary? && b.role.Standby? && a.nodeId != b.nodeId
    ensures multiset([a, b]) == multiset{a, b} && SolePrimary(multiset{a, b}, a) && UniqueNodes(multiset{a, b})
    ensures HubPrimary([a, b]) == a.nodeId && !HasSpareNode([a, b], b.nodeId, a.nodeId)
  {
    assert SolePrimary(multiset([a, b]), a);
    HubPrimaryIsSole([a, b], a);
  }

  /** Dropping the previous primary of any two-node site leaves the policy naming a node that is not primary. */
  lemma DroppingPreviousPrimaryBreaksStep(a: Row, b: Row, nodes: set<Uuid>)
    requires a.role.Primary? && b.role.Standby? && a.nodeId != b.nodeId && b.nodeId in nodes
    ensures var site := Site(multiset{a, b}, Targets(a.nodeId, b.nodeId), false);
      var after := SwitchSitePrimary(site, nodes, [a, b], Some(b.nodeId), false);
      InStep(site) && after.Some? && !InStep(after.value)
  {
    var site := Site(multiset{a, b}, Targets(a.nodeId, b.nodeId), false);
    var loaded := [a, b];
    TwoNodeSite(a, b);
    assert AcceptedTarget(nodes, loaded, Some(b.nodeId)) == Some(b.nodeId);
    SwitchKeepsStepIff(site, nodes, loaded, Some(b.nodeId), false);
  }

  /** An attempt that commits on a site in step breaks it if its snapshot does not name the site's primary. */
  lemma StaleSnapshotBreaksStep(site: Site, policy: Targets, loaded: seq<Binding>, ending: Ending)
    requires InStep(site) && !site.openEvent && multiset(Rows(loaded)) == site.rows && policy.primary != policy.standby
    ensures InStep(TriggerPolicyFailover(site, policy, loaded, Outcome(true, ending)).0)
       <==> site.policy.primary == policy.primary || site.policy.primary == policy.standby
  {
    OnlyPolicyPrimariesIff(site, policy, loaded);
    AttemptInStepIff(site, policy, loaded, Outcome(true, ending));
  }

  /**
   * A manual switch that falls between the worker's snapshot and its attempt: the two together keep the
   * site in step exactly when the operator switched to the very node the worker would have promoted.
   */
  lemma SwitchInsideCycleIff(w: World, rows: seq<Row>, requested: Option<Uuid>, loaded: seq<Binding>, ending: Ending)
    requires InStep(w.site) && !w.site.openEvent && IsHubLoad(rows, w.site.rows)
    requires SwitchSitePrimary(w.site, w.nodes.Keys, rows, requested, true).Some?
    requires multiset(Rows(loaded)) == SwitchSitePrimary(w.site, w.nodes.Keys, rows, requested, true).value.rows
    ensures var switched := SwitchSitePrimary(w.site, w.nodes.Keys, rows, requested, true).value;
      InStep(TriggerPolicyFailover(switched, w.site.policy, loaded, Outcome(true, ending)).0)
      <==> SwitchTarget(rows, requested).value == w.site.policy.standby
  {
    var p :| SolePrimary(w.site.rows, p) && p.nodeId == w.site.policy.primary;
    HubPrimaryIsSole(rows, p);
    SwitchInStepIff(w.site, w.nodes.Keys, rows, requested, true);
    var switched := SwitchSitePrimary(w.site, w.nodes.Keys, rows, requested, true).value;
    var target := SwitchTarget(rows, requested).value;
    var q :| SolePrimary(switched.rows, q) && q.nodeId == switched.policy.primary;
    assert q in switched.rows && q == Row(target, Primary, 100);
    StaleSnapshotBreaksStep(switched, w.site.policy, loaded, ending);
  }

  /** The end of a switch whose second write comes after everything else. */
  lemma LastUpdateDecides(site: Site, t: Targets, p: Row)
    requires UniqueNodes(site.rows) && t.primary != t.standby && p in site.rows && p.role.Primary?
    ensures InStep(site.(policy := t)) <==> SinglePrimary(site.rows) && t.primary == p.nodeId
  {
    InStepByPrimary(site.(policy := t), p);
  }

  /**
   * A worker attempt between the two writes of a keeping switch, whether it read the bindings before the first
   * write or after it: all three together end in step exactly when the operator switched to the node the
   * worker would have promoted, or the attempt does not commit.
   */
  lemma AttemptBetweenWritesIff(w: World, rows: seq<Row>, requested: Option<Uuid>, loaded: seq<Binding>, outcome: Outcome)
    requires InStep(w.site) && !w.site.openEvent && IsHubLoad(rows, w.site.rows)
    requires AcceptedTarget(w.nodes.Keys, rows, requested).Some?
    requires var target := AcceptedTarget(w.nodes.Keys, rows, requested).value;
      multiset(Rows(loaded)) == w.site.rows || multiset(Rows(loaded)) == multiset(FirstWrite(rows, target, true))
    ensures var target := AcceptedTarget(w.nodes.Keys, rows, requested).value;
      var saved := w.site.(rows := multiset(FirstWrite(rows, target, true)));
      var attempted := TriggerPolicyFailover(saved, w.site.policy, loaded, outcome).0;
      && SecondWrite(rows, target, true).Some?
      && (InStep(attempted.(policy := SecondWrite(rows, target, true).value)) <==> target == w.site.policy.standby || !outcome.commits)
  {
    var p :| SolePrimary(w.site.rows, p) && p.nodeId == w.site.policy.primary;
    HubPrimaryIsSole(rows, p);
    var target := AcceptedTarget(w.nodes.Keys, rows, requested).value;
    NextHubStandbyIff(rows, target, HubPrimary(rows), true);
    SwitchStores(rows, target, true);
    ManualRowsPrimary(rows, target, HubPrimary(rows), true);
    var saved := w.site.(rows := multiset(FirstWrite(rows, target, true)));
    BetweenWrites(w.site, saved, Row(target, Primary, 100), SecondWrite(rows, target, true).value, loaded, outcome);
  }

  /** `saved` has the sole primary `np`, which is not the old site's primary; `t` is the update that names it. */
  lemma BetweenWrites(site: Site, saved: Site, np: Row, t: Targets, loaded: seq<Binding>, outcome: Outcome)
    requires InStep(site) && UniqueNodes(saved.rows) && SolePrimary(saved.rows, np) && !saved.openEvent
    requires np.nodeId != site.policy.primary && t.primary == np.nodeId && t.standby != t.primary
    requires multiset(Rows(loaded)) == site.rows || multiset(Rows(loaded)) == saved.rows
    ensures InStep(TriggerPolicyFailover(saved, site.policy, loaded, outcome).0.(policy := t))
       <==> np.nodeId == site.policy.standby || !outcome.commits
  {
    var policy := site.policy;
    var after := TriggerPolicyFailover(saved, policy, loaded, outcome).0;
    AttemptStores(saved, policy, loaded, outcome);
    if Commits(saved, policy, loaded, outcome) {
      FailoverInStepIff(saved, policy, loaded);
      FailoverSinglePrimaryIff(loaded, policy.primary, policy.standby);
      LastUpdateDecides(after, t, Row(policy.standby, Primary, CurrentPrimaryPriority(loaded, policy.primary)));
      LoadedPrimaries(site, saved, np, loaded);
    } else {
      assert np in after.rows;
      LastUpdateDecides(after, t, np);
      LoadedPrimaries(site, saved, np, loaded);
    }
  }

  /** Who is primary in what the worker loaded, before the first write or after it. */
  lemma LoadedPrimaries(site: Site, saved: Site, np: Row, loaded: seq<Binding>)
    requires InStep(site) && SolePrimary(saved.rows, np)
    ensures multiset(Rows(loaded)) == site.rows ==>
              CurrentPrimaryNodeId(loaded) == Some(site.policy.primary) && OnlyPolicyPrimaries(loaded, site.policy)
    ensures multiset(Rows(loaded)) == saved.rows ==>
              CurrentPrimaryNodeId(loaded) == Some(np.nodeId)
              && (OnlyPolicyPrimaries(loaded, site.policy) <==> np.nodeId == site.policy.primary || np.nodeId == site.policy.standby)
  {
    if multiset(Rows(loaded)) == site.rows {
      OnlyPolicyPrimariesIff(site, site.policy, loaded);
    }
    if multiset(Rows(loaded)) == saved.rows {
      CurrentPrimaryIsSole(loaded, np);
      RowsMember(loaded, np);
      forall b | b in loaded && b.row.role.Primary? ensures b.row == np {
        RowsMember(loaded, b.row);
      }
    }
  }

  function ExampleSite(rows: seq<Row>): Site {
    Site(multiset(rows), Targets(1, 2), false)
  }

  lemma ExampleInStep(rows: seq<Row>)
    requires rows == [Row(1, Primary, 10), Row(2, Standby, 20), Row(3, Standby, 30)]
    ensures InStep(ExampleSite(rows)) && SolePrimary(multiset(rows), rows[0]) && HubPrimary(rows) == 1
    ensures IsHubLoad(rows, ExampleSite(rows).rows)
  {
    DistinctIsUnique(rows);
    assert SolePrimary(multiset(rows), rows[0]);
    HubPrimaryIsSole(rows, rows[0]);
  }

  /** The concrete case: three nodes, the worker about to promote node 2, the operator switching to node 3. */
  lemma SwitchInsideCycleBreaksStep(rows: seq<Row>, loaded: seq<Binding>, nodes: map<Uuid, NodeInfo>)
    requires rows == [Row(1, Primary, 10), Row(2, Standby, 20), Row(3, Standby, 30)] && 3 in nodes
    ensures var switched := SwitchSitePrimary(ExampleSite(rows), nodes.Keys, rows, Some(3), true);
      && InStep(ExampleSite(rows)) && switched.Some?
      && (multiset(Rows(loaded)) == switched.value.rows ==>
            !InStep(TriggerPolicyFailover(switched.value, Targets(1, 2), loaded, Outcome(true, Closed)).0))
  {
    ExampleInStep(rows);
    var switched := SwitchSitePrimary(ExampleSite(rows), nodes.Keys, rows, Some(3), true);
    if multiset(Rows(loaded)) == switched.value.rows {
      SwitchInsideCycleIff(World(ExampleSite(rows), nodes, multiset{}), rows, Some(3), loaded, Closed);
    }
  }
}
