/**
 * One node agent against the hub, step by step: the agent may crash between any two steps, any
 * request may fail, and a request the agent gave up on may still reach the hub later.
 *
 * The agent's two copies of its state, in memory and on disk, are separate; a restart reads the disk.
 * `applied` and `activated` remember the versions whose apply pipeline and activation completed here.
 */
module NodeAgent {
  import opened Common
  import opened ReleaseStatus

  type Version = string

  datatype Package = Package(id: Uuid, version: Version, configHash: string, siteCount: nat)

  datatype Current = Current(id: Option<Uuid>, version: Option<Version>, configHash: Option<string>, siteCount: nat)

  /** `LocalAgentState` without its heartbeat time. */
  datatype Local = Local(current: Current, lastAcknowledged: Option<Uuid>)

  const BLANK := Local(Current(None, None, None, 0), None)

  /** The place in the main loop: what the agent is about to do. */
  datatype Pc =
    | Down
    | Heartbeat
    | AskLatest
    | ReportDownloading(latest: Package)
    | FetchPackage(latest: Package)
    | ReportApplying(latest: Package, package: Package)
    | Apply(latest: Package, package: Package)
    | ReportFailed(latest: Package)
    | Activate(latest: Package, package: Package)
    | Acknowledge(latest: Package, package: Package)
    | Confirm(latest: Package)
    | SaveAcknowledged

  datatype Message = Message(id: Uuid, status: ApplyStatus)

  /** The hub as this node sees it: releases, those that still target the node, acknowledgements. */
  datatype Hub = Hub(releases: map<Uuid, Package>, targeting: set<Uuid>, acks: map<Uuid, ApplyStatus>)

  datatype System = System(
    hub: Hub,
    pc: Pc,
    memory: Local,
    disk: Local,
    late: set<Message>,
    applied: set<Version>,
    activated: set<Version>,
    failedAttempts: set<Uuid>,
    toldSuccess: set<Uuid>)

  const START := System(Hub(map[], {}, map[]), Down, BLANK, BLANK, {}, {}, {}, {}, {})

  // ---------------------------------------------------------------- steps

  /** How the world answers one agent step: success, a late arrival, an immediate retry, the release the hub picks. */
  datatype Choice = Choice(ok: bool, arrivesLater: bool, retry: bool, pick: Uuid)

  datatype Step =
    | AgentStep(choice: Choice)
    | Crash
    | Restart
    | HubPublishes(release: Package, targeted: bool)
    | HubDropsTarget(id: Uuid)
    | HubHandlesLate(message: Message)

  predicate HubAccepts(h: Hub, m: Message) {
    m.id in h.releases && m.id in h.targeting
  }

  /** `ack_release` */
  function Handle(s: System, m: Message): System {
    if !HubAccepts(s.hub, m) then s
    else s.(hub := s.hub.(acks := s.hub.acks[m.id := m.status]),
            toldSuccess := if m.status.Success? then s.toldSuccess + {m.id} else s.toldSuccess)
  }

  /** An error ends the round; after an authorization error the round starts over at once. */
  function GiveUp(s: System, c: Choice): System {
    s.(pc := if c.retry then AskLatest else Heartbeat)
  }

  /** One posted status: handled now, or failed for the agent and possibly handled later. */
  function Post(s: System, m: Message, c: Choice, next: Pc): System {
    if c.ok && HubAccepts(s.hub, m) then Handle(s, m).(pc := next)
    else GiveUp(if c.arrivesLater then s.(late := s.late + {m}) else s, c)
  }

  function CurrentOf(latest: Package, package: Package): Current {
    Current(Some(package.id), Some(package.version), Some(latest.configHash), package.siteCount)
  }

  /** Compares the hub's newest release with the current version. */
  function Decide(s: System, latest: Package): System {
    if s.memory.current.version != Some(latest.version) then s.(pc := ReportDownloading(latest))
    else if s.memory.lastAcknowledged != Some(latest.id) then s.(pc := Confirm(latest))
    else s.(pc := Heartbeat)
  }

  function Agent(s: System, c: Choice): System {
    match s.pc
    case Down => s
    case Heartbeat => if c.ok then s.(disk := s.memory, pc := AskLatest) else s.(pc := Down)
    case AskLatest =>
      if c.ok && c.pick in s.hub.releases then Decide(s, s.hub.releases[c.pick]) else GiveUp(s, c)
    case ReportDownloading(latest) => Post(s, Message(latest.id, Downloading), c, FetchPackage(latest))
    case FetchPackage(latest) =>
      if c.ok && c.pick in s.hub.releases && s.hub.releases[c.pick].version == latest.version && c.pick in s.hub.targeting
      then s.(pc := ReportApplying(latest, s.hub.releases[c.pick]))
      else GiveUp(s, c)
    case ReportApplying(latest, package) => Post(s, Message(latest.id, Applying), c, Apply(latest, package))
    case Apply(latest, package) =>
      if c.ok then s.(applied := s.applied + {package.version}, pc := Activate(latest, package))
      else s.(failedAttempts := s.failedAttempts + {latest.id}, pc := ReportFailed(latest))
    case ReportFailed(latest) => Post(s, Message(latest.id, Failed), c, if c.retry then AskLatest else Heartbeat)
    case Activate(latest, package) =>
      if c.ok
      then s.(activated := s.activated + {package.version},
              memory := s.memory.(current := CurrentOf(latest, package)),
              pc := Acknowledge(latest, package))
      else GiveUp(s, c)
    case Acknowledge(latest, package) => Acknowledged(s, Message(package.id, Success), c)
    case Confirm(latest) => Acknowledged(s, Message(latest.id, Success), c)
    case SaveAcknowledged => if c.ok then s.(disk := s.memory, pc := Heartbeat) else GiveUp(s, c)
  }

  /** Posts a success, and remembers it when the hub took it. */
  function Acknowledged(s: System, m: Message, c: Choice): System {
    var s' := Post(s, m, c, SaveAcknowledged);
    if s'.pc == SaveAcknowledged then s'.(memory := s.memory.(lastAcknowledged := Some(m.id))) else s'
  }

  function Next(s: System, step: Step): System {
    match step
    case AgentStep(c) => Agent(s, c)
    case Crash => s.(pc := Down)
    case Restart => if s.pc == Down then s.(memory := s.disk, pc := Heartbeat) else s
    case HubPublishes(r, targeted) =>
      if r.id in s.hub.releases then s
      else s.(hub := s.hub.(releases := s.hub.releases[r.id := r],
                            targeting := if targeted then s.hub.targeting + {r.id} else s.hub.targeting))
    case HubDropsTarget(id) =>
      s.(hub := s.hub.(targeting := s.hub.targeting - {id}, acks := s.hub.acks - {id}))
    case HubHandlesLate(m) => if m in s.late then Handle(s, m) else s
  }

  function Run(s: System, steps: seq<Step>): System
    decreases |steps|
  {
    if steps == [] then s else Run(Next(s, steps[0]), steps[1..])
  }

  // ---------------------------------------------------------------- what every step keeps

  ghost predicate Published(s: System, p: Package) {
    p.id in s.hub.releases && s.hub.releases[p.id] == p
  }

  /** A status is only ever sent when it is true of this agent. */
  ghost predicate Truthful(s: System, id: Uuid, status: ApplyStatus) {
    && (status.Success? ==> id in s.hub.releases && s.hub.releases[id].version in s.activated)
    && (status.Failed? ==> id in s.failedAttempts)
  }

  ghost predicate LocalOk(s: System, l: Local) {
    && (l.current.version.Some? ==> l.current.version.value in s.activated)
    && (l.lastAcknowledged.Some? ==> l.lastAcknowledged.value in s.toldSuccess)
  }

  ghost predicate PcOk(s: System) {
    match s.pc
    case ReportDownloading(latest) => Published(s, latest)
    case FetchPackage(latest) => Published(s, latest)
    case ReportApplying(latest, package) => Published(s, latest) && Published(s, package) && package.version == latest.version
    case Apply(latest, package) => Published(s, latest) && Published(s, package) && package.version == latest.version
    case ReportFailed(latest) => latest.id in s.failedAttempts
    case Activate(latest, package) => Published(s, latest) && Published(s, package) && package.version in s.applied
    case Acknowledge(latest, package) => Published(s, package) && package.version in s.activated
    case Confirm(latest) => Published(s, latest) && latest.version in s.activated
    case _ => true
  }

  ghost predicate Inv(s: System) {
    && s.activated <= s.applied
    && (forall id :: id in s.hub.releases ==> s.hub.releases[id].id == id)
    && (forall id :: id in s.hub.acks ==> Truthful(s, id, s.hub.acks[id]))
    && (forall m :: m in s.late ==> Truthful(s, m.id, m.status))
    && LocalOk(s, s.memory) && LocalOk(s, s.disk)
    && PcOk(s)
  }

  lemma HandleKeepsInv(s: System, m: Message)
    requires Inv(s) && Truthful(s, m.id, m.status)
    ensures Inv(Handle(s, m))
    ensures HubAccepts(s.hub, m) && m.status.Success? ==> m.id in Handle(s, m).toldSuccess
  {
  }

  /** Posting a true status keeps the invariant at every place the agent may go on from. */
  lemma PostKeepsInv(s: System, m: Message, c: Choice, next: Pc)
    requires Inv(s) && Truthful(s, m.id, m.status)
    requires PcOk(Handle(s, m).(pc := next))
    ensures Inv(Post(s, m, c, next))
    ensures m.status.Success? && c.ok && HubAccepts(s.hub, m) ==> m.id in Post(s, m, c, next).toldSuccess
  {
    HandleKeepsInv(s, m);
  }

  lemma AcknowledgedKeepsInv(s: System, m: Message, c: Choice)
    requires Inv(s) && m.status.Success? && Truthful(s, m.id, m.status)
    ensures Inv(Acknowledged(s, m, c))
  {
    PostKeepsInv(s, m, c, SaveAcknowledged);
  }

  lemma AgentKeepsInv(s: System, c: Choice)
    requires Inv(s)
    ensures Inv(Agent(s, c))
  {
    match s.pc {
      case ReportDownloading(latest) => PostKeepsInv(s, Message(latest.id, Downloading), c, FetchPackage(latest));
      case ReportApplying(latest, package) => PostKeepsInv(s, Message(latest.id, Applying), c, Apply(latest, package));
      case ReportFailed(latest) => PostKeepsInv(s, Message(latest.id, Failed), c, if c.retry then AskLatest else Heartbeat);
      case Acknowledge(latest, package) => AcknowledgedKeepsInv(s, Message(package.id, Success), c);
      case Confirm(latest) => AcknowledgedKeepsInv(s, Message(latest.id, Success), c);
      case _ =>
    }
  }

  lemma StepKeepsInv(s: System, step: Step)
    requires Inv(s)
    ensures Inv(Next(s, step))
  {
    match step {
      case AgentStep(c) => AgentKeepsInv(s, c);
      case HubHandlesLate(m) =>
        if m in s.late {
          HandleKeepsInv(s, m);
        }
      case _ =>
    }
  }

  lemma {:induction false} RunKeepsInv(s: System, steps: seq<Step>)
    requires Inv(s)
    ensures Inv(Run(s, steps))
    decreases |steps|
  {
    if steps != [] {
      StepKeepsInv(s, steps[0]);
      RunKeepsInv(Next(s, steps[0]), steps[1..]);
    }
  }

  // ---------------------------------------------------------------- main results

  /** In every run the hub holds "success" for a release only if its version was applied and activated here. */
  lemma SuccessMeansApplied(steps: seq<Step>, id: Uuid)
    requires var h := Run(START, steps).hub; id in h.acks && h.acks[id] == Success
    ensures var s := Run(START, steps);
      id in s.hub.releases && s.hub.releases[id].version in s.applied && s.hub.releases[id].version in s.activated
  {
    RunKeepsInv(START, steps);
    assert Truthful(Run(START, steps), id, Success);
  }

  /** "failed" likewise: an apply for that release did fail. */
  lemma FailedMeansAttempted(steps: seq<Step>, id: Uuid)
    requires var h := Run(START, steps).hub; id in h.acks && h.acks[id] == Failed
    ensures id in Run(START, steps).failedAttempts
  {
    RunKeepsInv(START, steps);
    assert Truthful(Run(START, steps), id, Failed);
  }

  /** What the agent has written down, in memory or on disk, is true: its version is active, its acknowledgement arrived. */
  lemma LocalStateIsTrue(steps: seq<Step>)
    ensures var s := Run(START, steps); LocalOk(s, s.memory) && LocalOk(s, s.disk)
  {
    RunKeepsInv(START, steps);
  }

  /** The current release fields change only on a completed activation or a restart, so a failed apply leaves them alone. */
  lemma CurrentChangesOnlyByActivation(s: System, step: Step)
    requires Next(s, step).memory.current != s.memory.current
    ensures (step.AgentStep? && step.choice.ok && s.pc.Activate?) || (step.Restart? && s.pc.Down?)
    ensures step.AgentStep? ==> Next(s, step).memory.current == CurrentOf(s.pc.latest, s.pc.package)
  {
  }

  ghost predicate SameCurrent(s: System, t: System) {
    t.memory.current == s.memory.current && t.disk.current == s.disk.current
  }

  /**
   * Whatever follows a failed apply, the current release stays what it was, in memory and on disk,
   * until the agent completes another activation.
   */
  lemma {:induction false} FailedApplyKeepsCurrent(s: System, steps: seq<Step>)
    requires s.memory.current == s.disk.current && !s.pc.Activate? && !s.pc.Acknowledge?
    requires forall k :: 0 <= k < |steps| ==> steps[k].AgentStep? && Run(s, steps[..k]).pc.Apply? ==> !steps[k].choice.ok
    ensures SameCurrent(s, Run(s, steps))
    decreases |steps|
  {
    if steps != [] {
      var t := Next(s, steps[0]);
      assert steps[..0] == [] && Run(s, []) == s;
      assert !t.pc.Activate? && !t.pc.Acknowledge? && SameCurrent(s, t);
      var rest := steps[1..];
      forall k | 0 <= k < |rest| && rest[k].AgentStep? && Run(t, rest[..k]).pc.Apply? ensures !rest[k].choice.ok {
        assert steps[..k + 1][0] == steps[0] && steps[..k + 1][1..] == rest[..k];
        assert rest[k] == steps[k + 1];
      }
      FailedApplyKeepsCurrent(t, rest);
    }
  }

  function Fine(pick: Uuid): Step {
    AgentStep(Choice(true, false, false, pick))
  }

  /** The steps of one round without faults, in which the hub answers with `latest` and serves `package`. */
  function Round(latest: Uuid, package: Uuid): seq<Step> {
    [Fine(latest), Fine(0), Fine(package), Fine(0), Fine(0), Fine(0), Fine(0), Fine(0)]
  }

  lemma RunSplit(s: System, step: Step, rest: seq<Step>)
    ensures Run(s, [step] + rest) == Run(Next(s, step), rest)
  {
    assert ([step] + rest)[1..] == rest;
  }

  /** The first half of a round without faults: everything up to the apply. */
  lemma RoundDownloads(s: System, latest: Uuid, package: Uuid)
    requires Inv(s) && s.pc == AskLatest && latest in s.hub.releases && package in s.hub.releases
    requires latest in s.hub.targeting && package in s.hub.targeting
    requires s.hub.releases[latest].version == s.hub.releases[package].version
    requires s.memory.current.version != Some(s.hub.releases[latest].version)
    ensures var t := Next(Next(Next(Next(s, Fine(latest)), Fine(0)), Fine(package)), Fine(0));
      && t.pc == Apply(s.hub.releases[latest], s.hub.releases[package])
      && t.hub.releases == s.hub.releases && t.hub.targeting == s.hub.targeting
  {
    var l, p := s.hub.releases[latest], s.hub.releases[package];
    var s1 := Next(s, Fine(latest));
    assert s1 == s.(pc := ReportDownloading(l));
    var s2 := Next(s1, Fine(0));
    assert s2.pc == FetchPackage(l) && s2.hub.releases == s.hub.releases && s2.hub.targeting == s.hub.targeting;
    var s3 := Next(s2, Fine(package));
    assert s3 == s2.(pc := ReportApplying(l, p));
  }

  /** The second half: apply, activate, acknowledge, save. */
  lemma RoundApplies(s: System)
    requires s.pc.Apply? && s.pc.package.id in s.hub.releases && s.pc.package.id in s.hub.targeting
    ensures var t := Next(Next(Next(Next(s, Fine(0)), Fine(0)), Fine(0)), Fine(0));
      && t.pc == Heartbeat && t.disk == t.memory
      && t.memory.current == CurrentOf(s.pc.latest, s.pc.package)
      && t.memory.lastAcknowledged == Some(s.pc.package.id)
      && s.pc.package.id in t.hub.acks && t.hub.acks[s.pc.package.id] == Success
      && t.hub.releases == s.hub.releases && s.pc.package.version in t.activated
  {
    var s2 := Next(Next(s, Fine(0)), Fine(0));
    assert s2.pc == Acknowledge(s.pc.latest, s.pc.package) && s2.hub == s.hub && s.pc.package.version in s2.activated;
  }

  /** A round without faults installs a new version and tells the hub, whatever happened before. */
  lemma FaultFreeRoundConverges(s: System, latest: Uuid, package: Uuid)
    requires Inv(s) && s.pc == AskLatest && latest in s.hub.releases && package in s.hub.releases
    requires latest in s.hub.targeting && package in s.hub.targeting
    requires s.hub.releases[latest].version == s.hub.releases[package].version
    requires s.memory.current.version != Some(s.hub.releases[latest].version)
    ensures var t := Run(s, Round(latest, package));
      && t.pc == Heartbeat && t.disk == t.memory
      && t.memory.current.version == Some(s.hub.releases[latest].version)
      && t.memory.lastAcknowledged == Some(package)
      && package in t.hub.acks && t.hub.acks[package] == Success
      && package in t.hub.releases && t.hub.releases[package].version in t.activated
  {
    RunEight(s, Round(latest, package));
    RoundDownloads(s, latest, package);
    RoundApplies(Next(Next(Next(Next(s, Fine(latest)), Fine(0)), Fine(package)), Fine(0)));
  }

  lemma RunEight(s: System, r: seq<Step>)
    requires |r| == 8
    ensures Run(s, r) == Next(Next(Next(Next(Next(Next(Next(Next(s, r[0]), r[1]), r[2]), r[3]), r[4]), r[5]), r[6]), r[7])
  {
    RunFour(s, r[..4]);
    RunConcat(s, r[..4], r[4..]);
    assert r[..4] + r[4..] == r;
    RunFour(Run(s, r[..4]), r[4..]);
  }

  lemma RunFour(s: System, r: seq<Step>)
    requires |r| == 4
    ensures Run(s, r) == Next(Next(Next(Next(s, r[0]), r[1]), r[2]), r[3])
  {
    assert r == [r[0]] + ([r[1]] + ([r[2]] + ([r[3]] + [])));
    RunSplit(s, r[0], [r[1]] + ([r[2]] + ([r[3]] + [])));
    RunSplit(Next(s, r[0]), r[1], [r[2]] + ([r[3]] + []));
    RunSplit(Next(Next(s, r[0]), r[1]), r[2], [r[3]] + []);
    RunSplit(Next(Next(Next(s, r[0]), r[1]), r[2]), r[3], []);
  }

  lemma {:induction false} RunConcat(s: System, a: seq<Step>, b: seq<Step>)
    ensures Run(s, a + b) == Run(Run(s, a), b)
    decreases |a|
  {
    if a == [] {
      assert a + b == b;
    } else {
      RunConcat(Next(s, a[0]), a[1..], b);
      assert (a + b)[1..] == a[1..] + b;
    }
  }

  // ---------------------------------------------------------------- the rest of a round

  /** What an activation installs: id and version of the package, the hash the hub announced, the sites of the package. */
  lemma ActivationInstalls(s: System, c: Choice)
    requires s.pc.Activate? && c.ok
    ensures var t := Agent(s, c);
      && t.memory.current.id == Some(s.pc.package.id) && t.memory.current.version == Some(s.pc.package.version)
      && t.memory.current.configHash == Some(s.pc.latest.configHash) && t.memory.current.siteCount == s.pc.package.siteCount
      && t.disk == s.disk && t.memory.lastAcknowledged == s.memory.lastAcknowledged
      && t.pc == Acknowledge(s.pc.latest, s.pc.package)
  {
  }

  /** A heartbeat the hub answers writes the state to disk and goes on; one it does not answer ends the agent. */
  lemma HeartbeatSaves(s: System, c: Choice)
    requires s.pc == Heartbeat
    ensures Agent(s, c).memory == s.memory && Agent(s, c).hub == s.hub
    ensures c.ok ==> Agent(s, c).disk == s.memory && Agent(s, c).pc == AskLatest
    ensures !c.ok ==> Agent(s, c).disk == s.disk && Agent(s, c).pc == Down
  {
  }

  /** A restart resumes from the disk. */
  lemma RestartResumes(s: System)
    requires s.pc == Down
    ensures Next(s, Restart).memory == s.disk && Next(s, Restart).disk == s.disk && Next(s, Restart).pc == Heartbeat
  {
  }

  /** What the hub hears on the way: downloading before the package is fetched, applying before it is applied. */
  lemma ReportsOnTheWay(s: System)
    ensures s.pc.ReportDownloading? && HubAccepts(s.hub, Message(s.pc.latest.id, Downloading)) ==>
      var t := Next(s, Fine(0));
      t.pc == FetchPackage(s.pc.latest) && s.pc.latest.id in t.hub.acks && t.hub.acks[s.pc.latest.id] == Downloading
    ensures s.pc.ReportApplying? && HubAccepts(s.hub, Message(s.pc.latest.id, Applying)) ==>
      var t := Next(s, Fine(0));
      t.pc == Apply(s.pc.latest, s.pc.package) && s.pc.latest.id in t.hub.acks && t.hub.acks[s.pc.latest.id] == Applying
  {
  }

  /** A failed apply is reported as failed, and the round ends. */
  lemma FailureIsReported(s: System, c: Choice)
    requires s.pc.Apply? && !c.ok && HubAccepts(s.hub, Message(s.pc.latest.id, Failed))
    ensures var t := Next(Agent(s, c), Fine(0));
      && s.pc.latest.id in t.hub.acks && t.hub.acks[s.pc.latest.id] == Failed
      && t.pc == Heartbeat && t.memory == s.memory && t.disk == s.disk && t.applied == s.applied
  {
  }

  /** An agent that already runs the newest version, but has not said so, tells the hub and writes it down. */
  lemma ConfirmsRunningVersion(s: System, latest: Uuid)
    requires Inv(s) && s.pc == AskLatest && latest in s.hub.releases && latest in s.hub.targeting
    requires s.memory.current.version == Some(s.hub.releases[latest].version) && s.memory.lastAcknowledged != Some(latest)
    ensures var t := Next(Next(Next(s, Fine(latest)), Fine(0)), Fine(0));
      && t.pc == Heartbeat && latest in t.hub.acks && t.hub.acks[latest] == Success
      && t.memory == s.memory.(lastAcknowledged := Some(latest)) && t.disk == t.memory && t.applied == s.applied
  {
    var s1 := Next(s, Fine(latest));
    assert s1 == s.(pc := Confirm(s.hub.releases[latest])) && s.hub.releases[latest].id == latest;
    var s2 := Next(s1, Fine(0));
    assert s2.pc == SaveAcknowledged && s2.memory.lastAcknowledged == Some(latest);
  }

  /** One that has said so does nothing. */
  lemma IdleWhenAcknowledged(s: System, latest: Uuid)
    requires Inv(s) && s.pc == AskLatest && latest in s.hub.releases
    requires s.memory.current.version == Some(s.hub.releases[latest].version) && s.memory.lastAcknowledged == Some(latest)
    ensures Next(s, Fine(latest)) == s.(pc := Heartbeat)
  {
  }

  /** A request that fails ends the round: at once a new one after an authorization error, else the next heartbeat. */
  lemma ErrorEndsRound(s: System, c: Choice)
    requires !c.ok && !c.arrivesLater && (s.pc.ReportDownloading? || s.pc.FetchPackage? || s.pc.ReportApplying? || s.pc.Acknowledge? || s.pc.Confirm?)
    ensures Agent(s, c) == s.(pc := if c.retry then AskLatest else Heartbeat)
  {
  }

  /** The package comes from a release of the announced version that targets the node. */
  lemma PackageIsOfTheVersion(s: System, c: Choice)
    requires s.pc.FetchPackage? && Agent(s, c).pc.ReportApplying?
    ensures var p := Agent(s, c).pc.package;
      c.pick in s.hub.releases && p == s.hub.releases[c.pick] && p.version == s.pc.latest.version && c.pick in s.hub.targeting
  {
  }

  /** What the hub does on its own: it publishes under new ids, and forgets a node with what it acknowledged. */
  lemma HubSteps(s: System, r: Package, targeted: bool, id: Uuid)
    ensures r.id !in s.hub.releases ==>
      var t := Next(s, HubPublishes(r, targeted));
      && t.hub.releases == s.hub.releases[r.id := r] && t.hub.acks == s.hub.acks
      && (forall x :: x in t.hub.targeting <==> x in s.hub.targeting || (targeted && x == r.id))
    ensures var t := Next(s, HubDropsTarget(id));
      t.hub.releases == s.hub.releases && t.hub.targeting == s.hub.targeting - {id} && t.hub.acks == s.hub.acks - {id}
  {
  }

  /** A late request is handled like any other: refused for a release that no longer targets the node. */
  lemma LateRequestIsHandled(s: System, m: Message)
    requires m in s.late
    ensures var t := Next(s, HubHandlesLate(m));
      && t.memory == s.memory && t.disk == s.disk && t.pc == s.pc
      && (m.id in s.hub.releases && m.id in s.hub.targeting ==> t.hub.acks == s.hub.acks[m.id := m.status])
      && (!(m.id in s.hub.releases && m.id in s.hub.targeting) ==> t == s)
  {
  }
}
