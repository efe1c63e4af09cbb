/**
 * Node operations: created from a template, claimed once by their node, reported back.
 *
 * Each access of the store is a step of its own: the template a creation has read, and the operation a
 * report has read, may have changed by the time it saves.  Operation ids are fresh.  `births`, `log`,
 * `orphans` and `missed` are history: how each operation was saved, what was handed to the nodes, which
 * operations were saved while their template was gone, and which were claimed in vain.
 */
module Operations {
  import opened Common
  import opened CommandTemplate
  import opened Text

  datatype Template = Template(command: string, allowed: seq<string>, approvalRequired: bool)

  datatype Outcome = Succeeded | Failed | TimedOut | Cancelled

  datatype ExecStatus = Waiting | Approved | Running | Finished(outcome: Outcome)

  datatype Operation = Operation(node: Uuid, template: Uuid, params: Params, status: ExecStatus, createdAt: int)

  /** An operation as it was saved, the template it was checked against, its ticket, and how many dispatches came before. */
  datatype Birth = Birth(op: Operation, template: Template, ticket: Option<string>, savedAfter: nat)

  /** What a node received: the command, or nothing when the template no longer renders. */
  datatype Dispatch = Dispatch(id: Uuid, node: Uuid, template: Template, command: Option<string>)

  datatype Queue = Queue(
    templates: map<Uuid, Template>,
    operations: map<Uuid, Operation>,
    births: map<Uuid, Birth>,
    log: seq<Dispatch>,
    orphans: set<Uuid>,
    missed: set<Uuid>)

  function Rendered(t: Template, params: Params): Option<string> {
    if !KeysAllowed(t.allowed, params) then None
    else match RenderFrom(t.command, t.allowed, params)
      case Ok(command) => Some(command)
      case Err(_) => None
  }

  // ---------------------------------------------------------------- steps

  /** `read` is what the request had read of the template before its save. */
  datatype Step =
    | SaveTemplate(id: Uuid, template: Template)
    | DeleteTemplate(id: Uuid)
    | Create(id: Uuid, nodeExists: bool, node: Uuid, templateId: Uuid, read: Template, params: Params, ticket: Option<string>, createdAt: int)
    | Claim(node: Uuid, id: Uuid)
    | Report(id: Uuid, node: Uuid, outcome: Outcome)

  predicate Eligible(q: Queue, node: Uuid, id: Uuid) {
    id in q.operations && q.operations[id].node == node && q.operations[id].status == Approved
  }

  /** The eligible operation that was created first. */
  ghost predicate IsNext(q: Queue, node: Uuid, id: Uuid) {
    Eligible(q, node, id) && forall o :: Eligible(q, node, o) ==> q.operations[id].createdAt <= q.operations[o].createdAt
  }

  /** A ticket is a text that is not blank. */
  predicate HasTicket(ticket: Option<string>) {
    ticket.Some? && !Blank(ticket.value)
  }

  /** Without a ticket, a template that needs approval leaves the operation waiting. */
  function NewOperation(s: Step): Operation
    requires s.Create?
  {
    Operation(s.node, s.templateId, s.params, if s.read.approvalRequired && !HasTicket(s.ticket) then Waiting else Approved, s.createdAt)
  }

  predicate Accepts(q: Queue, s: Step)
    requires s.Create?
  {
    s.nodeExists && s.id !in q.births && Rendered(s.read, s.params).Some?
  }

  /** The operation is saved without another look at the template. */
  function Created(q: Queue, s: Step): Queue
    requires s.Create? && Accepts(q, s)
  {
    q.(operations := q.operations[s.id := NewOperation(s)],
       births := q.births[s.id := Birth(NewOperation(s), s.read, s.ticket, |q.log|)],
       orphans := if s.templateId in q.templates then q.orphans else q.orphans + {s.id})
  }

  function MarkedRunning(q: Queue, id: Uuid): Queue
    requires id in q.operations
  {
    q.(operations := q.operations[id := q.operations[id].(status := Running)])
  }

  /** Marks the operation running; only then is its template looked up. */
  function Claimed(q: Queue, id: Uuid): Queue
    requires id in q.operations
  {
    var op := q.operations[id];
    if op.template !in q.templates then MarkedRunning(q, id).(missed := q.missed + {id})
    else
      var t := q.templates[op.template];
      MarkedRunning(q, id).(log := q.log + [Dispatch(id, op.node, t, Rendered(t, op.params))])
  }

  /** The record read before, finished, is put over whatever is stored by then. */
  function Reported(q: Queue, id: Uuid, outcome: Outcome): Queue
    requires id in q.births
  {
    q.(operations := q.operations[id := q.births[id].op.(status := Finished(outcome))])
  }

  function WithTemplate(q: Queue, id: Uuid, t: Template): Queue {
    q.(templates := q.templates[id := t],
       orphans := set o | o in q.orphans && !(o in q.births && q.births[o].op.template == id))
  }

  function WithoutTemplate(q: Queue, id: Uuid): Queue {
    if id !in q.templates then q
    else q.(templates := q.templates - {id},
            operations := map o | o in q.operations && q.operations[o].template != id :: q.operations[o])
  }

  ghost function Next(q: Queue, s: Step): Queue {
    match s
    case SaveTemplate(id, t) => WithTemplate(q, id, t)
    case DeleteTemplate(id) => WithoutTemplate(q, id)
    case Create(_, _, _, _, _, _, _, _) => if Accepts(q, s) then Created(q, s) else q
    case Claim(node, id) => if IsNext(q, node, id) then Claimed(q, id) else q
    case Report(id, node, outcome) =>
      if id in q.births && q.births[id].op.node == node then Reported(q, id, outcome) else q
  }

  ghost function Run(q: Queue, steps: seq<Step>): Queue
    decreases |steps|
  {
    if steps == [] then q else Run(Next(q, steps[0]), steps[1..])
  }

  const EMPTY := Queue(map[], map[], map[], [], {}, {})

  // ---------------------------------------------------------------- what every step keeps

  predicate Unclaimed(status: ExecStatus) {
    status == Waiting || status == Approved
  }

  /** Operations are what they were saved as, apart from a status that only moves forward. */
  ghost predicate OperationsInv(q: Queue) {
    && (forall id :: id in q.operations ==> id in q.births && q.births[id].op == q.operations[id].(status := q.births[id].op.status))
    && (forall id :: id in q.operations && Unclaimed(q.operations[id].status) ==> q.operations[id].status == q.births[id].op.status)
  }

  ghost predicate BirthsInv(q: Queue) {
    && (forall id :: id in q.births ==> q.births[id].savedAfter <= |q.log|)
    && (forall id :: id in q.births ==> Rendered(q.births[id].template, q.births[id].op.params).Some?)
    && (forall id :: id in q.births ==> ApprovedRightly(q.births[id]))
  }

  /** Approved from the start exactly when the template needs no approval or a ticket was given, else waiting. */
  predicate ApprovedRightly(b: Birth) {
    && (b.op.status == Approved || b.op.status == Waiting)
    && (b.op.status == Approved <==> !b.template.approvalRequired || HasTicket(b.ticket))
  }

  /** The orphans among the unclaimed operations are exactly those whose template is gone. */
  ghost predicate OrphansInv(q: Queue) {
    && q.orphans <= q.births.Keys
    && (forall id :: id in q.operations && Unclaimed(q.operations[id].status) ==>
         (q.operations[id].template in q.templates <==> id !in q.orphans))
  }

  predicate Moved(q: Queue, id: Uuid) {
    id in q.operations ==> q.operations[id].status.Running? || q.operations[id].status.Finished?
  }

  /** One dispatch: to its own node, of an operation created approved and no longer claimable. */
  ghost predicate DispatchOk(q: Queue, d: Dispatch) {
    && d.id in q.births && q.births[d.id].op.status == Approved && q.births[d.id].op.node == d.node
    && d.command == Rendered(d.template, q.births[d.id].op.params)
    && Moved(q, d.id) && d.id !in q.missed
  }

  /** `a`, dispatched as number `i`, was created no later than `b`, or `b` was saved only after that. */
  predicate InOrder(q: Queue, a: Uuid, i: nat, b: Uuid)
    requires a in q.births && b in q.births
  {
    q.births[a].op.createdAt <= q.births[b].op.createdAt || i < q.births[b].savedAfter
  }

  /** Whatever the node can still claim comes after dispatch `i`. */
  ghost predicate AheadOfEligible(q: Queue, i: nat)
    requires i < |q.log|
  {
    forall o :: Eligible(q, q.log[i].node, o) && o in q.births && q.log[i].id in q.births ==> InOrder(q, q.log[i].id, i, o)
  }

  ghost predicate LogInv(q: Queue) {
    && (forall i :: 0 <= i < |q.log| ==> DispatchOk(q, q.log[i]))
    && (forall i :: 0 <= i < |q.log| ==> AheadOfEligible(q, i))
    && (forall i, j :: 0 <= i < j < |q.log| ==> q.log[i].id != q.log[j].id)
    && (forall i, j :: 0 <= i < j < |q.log| && q.log[i].node == q.log[j].node ==> InOrder(q, q.log[i].id, i, q.log[j].id))
  }

  predicate InLog(q: Queue, id: Uuid) {
    exists i :: 0 <= i < |q.log| && q.log[i].id == id
  }

  /** Whatever is marked running was handed out or claimed in vain. */
  ghost predicate RunningInv(q: Queue) {
    && (forall id :: id in q.operations && q.operations[id].status == Running ==> InLog(q, id) || id in q.missed)
    && (forall id :: id in q.missed ==> id in q.births && Moved(q, id))
  }

  ghost predicate Inv(q: Queue) {
    OperationsInv(q) && BirthsInv(q) && OrphansInv(q) && LogInv(q) && RunningInv(q)
  }

  // ---------------------------------------------------------------- creation

  lemma CreateLogInv(q: Queue, s: Step)
    requires Inv(q) && s.Create? && Accepts(q, s)
    ensures LogInv(Created(q, s))
  {
    var q' := Created(q, s);
    forall i | 0 <= i < |q.log| ensures DispatchOk(q', q'.log[i]) && q'.births[q.log[i].id] == q.births[q.log[i].id] {
      assert DispatchOk(q, q.log[i]);
    }
    forall i | 0 <= i < |q.log| ensures AheadOfEligible(q', i) {
      CreateKeepsAhead(q, s, i);
    }
  }

  lemma CreateKeepsAhead(q: Queue, s: Step, i: nat)
    requires Inv(q) && s.Create? && Accepts(q, s) && i < |q.log|
    ensures AheadOfEligible(Created(q, s), i)
  {
    var q' := Created(q, s);
    assert DispatchOk(q, q.log[i]) && AheadOfEligible(q, i);
    forall o | Eligible(q', q.log[i].node, o) && o in q'.births ensures InOrder(q', q.log[i].id, i, o) {
      assert o != s.id ==> Eligible(q, q.log[i].node, o);
    }
  }

  lemma CreateKeepsInv(q: Queue, s: Step)
    requires Inv(q) && s.Create? && Accepts(q, s)
    ensures Inv(Created(q, s))
  {
    CreateLogInv(q, s);
    CreateRecordsInv(q, s);
    CreateBirthsInv(q, s);
    CreateOrphansInv(q, s);
    var q' := Created(q, s);
    forall id | id in q'.operations && q'.operations[id].status == Running ensures InLog(q', id) || id in q'.missed {
      assert id in q.operations && (InLog(q, id) || id in q.missed);
    }
  }

  lemma CreateRecordsInv(q: Queue, s: Step)
    requires Inv(q) && s.Create? && Accepts(q, s)
    ensures OperationsInv(Created(q, s))
  {
  }

  lemma CreateBirthsInv(q: Queue, s: Step)
    requires Inv(q) && s.Create? && Accepts(q, s)
    ensures BirthsInv(Created(q, s))
  {
    assert ApprovedRightly(Birth(NewOperation(s), s.read, s.ticket, |q.log|));
  }

  lemma CreateOrphansInv(q: Queue, s: Step)
    requires Inv(q) && s.Create? && Accepts(q, s)
    ensures OrphansInv(Created(q, s))
  {
  }

  // ---------------------------------------------------------------- steps that only move operations on

  /**
   * A step that keeps births and log, and after which every unclaimed operation is one that was there
   * before, keeps what is known of the log.
   */
  lemma LogCarriesOver(q: Queue, q': Queue)
    requires LogInv(q) && q'.births == q.births && q'.log == q.log && q'.missed == q.missed
    requires forall id :: id in q'.operations && Unclaimed(q'.operations[id].status) ==> id in q.operations && q'.operations[id] == q.operations[id]
    ensures LogInv(q')
  {
    forall i | 0 <= i < |q.log| ensures DispatchOk(q', q'.log[i]) && AheadOfEligible(q', i) {
      assert DispatchOk(q, q.log[i]) && AheadOfEligible(q, i);
      assert forall o :: Eligible(q', q.log[i].node, o) ==> Eligible(q, q.log[i].node, o);
    }
  }

  lemma RunningCarriesOver(q: Queue, q': Queue)
    requires RunningInv(q) && q'.births == q.births && q'.log == q.log && q'.missed == q.missed
    requires forall id :: id in q'.operations && !q'.operations[id].status.Finished? ==> id in q.operations && q'.operations[id] == q.operations[id]
    ensures RunningInv(q')
  {
    forall id | id in q'.operations && q'.operations[id].status == Running ensures InLog(q', id) || id in q'.missed {
      assert InLog(q, id) || id in q.missed;
    }
  }

  lemma TemplateStepKeepsInv(q: Queue, q': Queue)
    requires Inv(q) && OrphansInv(q') && q'.births == q.births && q'.log == q.log && q'.missed == q.missed
    requires forall id :: id in q'.operations ==> id in q.operations && q'.operations[id] == q.operations[id]
    ensures Inv(q')
  {
    LogCarriesOver(q, q');
    RunningCarriesOver(q, q');
  }

  lemma ReportKeepsInv(q: Queue, id: Uuid, outcome: Outcome)
    requires Inv(q) && id in q.births
    ensures Inv(Reported(q, id, outcome))
  {
    LogCarriesOver(q, Reported(q, id, outcome));
    RunningCarriesOver(q, Reported(q, id, outcome));
  }

  // ---------------------------------------------------------------- claiming

  /** An operation that can be claimed has neither been dispatched nor missed. */
  lemma EligibleIsNew(q: Queue, node: Uuid, id: Uuid)
    requires Inv(q) && Eligible(q, node, id)
    ensures id in q.births && q.births[id].op == q.operations[id] && id !in q.missed && !InLog(q, id)
  {
    assert forall i :: 0 <= i < |q.log| ==> DispatchOk(q, q.log[i]);
  }

  lemma RunningLogInv(q: Queue, node: Uuid, id: Uuid)
    requires Inv(q) && Eligible(q, node, id)
    ensures LogInv(MarkedRunning(q, id))
  {
    EligibleIsNew(q, node, id);
    LogCarriesOver(q, MarkedRunning(q, id));
  }

  lemma MissedLogInv(q: Queue, node: Uuid, id: Uuid)
    requires Inv(q) && Eligible(q, node, id)
    ensures LogInv(MarkedRunning(q, id).(missed := q.missed + {id}))
  {
    RunningLogInv(q, node, id);
    EligibleIsNew(q, node, id);
    var running, q' := MarkedRunning(q, id), MarkedRunning(q, id).(missed := q.missed + {id});
    forall i | 0 <= i < |q.log| ensures DispatchOk(q', q'.log[i]) {
      assert DispatchOk(running, q.log[i]) && InLog(q, q.log[i].id);
    }
    forall i | 0 <= i < |q.log| ensures AheadOfEligible(q', i) {
      assert AheadOfEligible(running, i);
      assert forall o :: Eligible(q', q.log[i].node, o) <==> Eligible(running, q.log[i].node, o);
    }
    SameOrder(running, q');
  }

  /** The order of the log is a matter of births and log alone. */
  lemma SameOrder(q: Queue, q': Queue)
    requires LogInv(q) && q'.births == q.births && q'.log == q.log
    ensures forall i, j :: 0 <= i < j < |q'.log| && q'.log[i].node == q'.log[j].node ==>
              q'.log[i].id in q'.births && q'.log[j].id in q'.births && InOrder(q', q'.log[i].id, i, q'.log[j].id)
  {
    forall i | 0 <= i < |q.log| ensures q.log[i].id in q.births {
      assert DispatchOk(q, q.log[i]);
    }
  }

  /** Every operation the node can still claim was created no earlier than the one it just claimed. */
  lemma DispatchedAheadOfRest(q: Queue, node: Uuid, id: Uuid)
    requires Inv(q) && IsNext(q, node, id) && q.operations[id].template in q.templates
    ensures AheadOfEligible(Claimed(q, id), |q.log|)
  {
    var q' := Claimed(q, id);
    forall o | Eligible(q', node, o) && o in q'.births ensures InOrder(q', id, |q.log|, o) {
      assert Eligible(q, node, o);
      EligibleIsNew(q, node, o);
      EligibleIsNew(q, node, id);
    }
  }

  lemma DispatchedEntries(q: Queue, node: Uuid, id: Uuid, i: nat)
    requires Inv(q) && IsNext(q, node, id) && q.operations[id].template in q.templates && i <= |q.log|
    ensures |Claimed(q, id).log| == |q.log| + 1
    ensures DispatchOk(Claimed(q, id), Claimed(q, id).log[i]) && AheadOfEligible(Claimed(q, id), i)
  {
    var running, q' := MarkedRunning(q, id), Claimed(q, id);
    EligibleIsNew(q, node, id);
    if i < |q.log| {
      RunningLogInv(q, node, id);
      assert DispatchOk(running, q.log[i]) && AheadOfEligible(running, i);
      assert forall o :: Eligible(q', q.log[i].node, o) <==> Eligible(running, q.log[i].node, o);
    } else {
      DispatchedAheadOfRest(q, node, id);
    }
  }

  /** The claimed operation is none of those dispatched before, and comes after those of its node. */
  lemma DispatchedIsLater(q: Queue, node: Uuid, id: Uuid, i: nat)
    requires Inv(q) && IsNext(q, node, id) && i < |q.log|
    ensures q.log[i].id != id && q.log[i].id in q.births && id in q.births
    ensures q.log[i].node == node ==> InOrder(q, q.log[i].id, i, id)
  {
    EligibleIsNew(q, node, id);
    assert DispatchOk(q, q.log[i]) && AheadOfEligible(q, i) && InLog(q, q.log[i].id);
  }

  lemma DispatchedLogInv(q: Queue, node: Uuid, id: Uuid)
    requires Inv(q) && IsNext(q, node, id) && q.operations[id].template in q.templates
    ensures LogInv(Claimed(q, id))
  {
    var q' := Claimed(q, id);
    forall i | 0 <= i < |q'.log| ensures DispatchOk(q', q'.log[i]) && AheadOfEligible(q', i) {
      DispatchedEntries(q, node, id, i);
    }
    forall i | 0 <= i < |q.log|
      ensures q.log[i].id != id && q.log[i].id in q.births && id in q.births
      ensures q.log[i].node == node ==> InOrder(q, q.log[i].id, i, id)
    {
      DispatchedIsLater(q, node, id, i);
    }
  }

  lemma ClaimRunningInv(q: Queue, node: Uuid, id: Uuid)
    requires Inv(q) && IsNext(q, node, id)
    ensures RunningInv(Claimed(q, id))
  {
    var q' := Claimed(q, id);
    EligibleIsNew(q, node, id);
    forall o | o in q'.operations && q'.operations[o].status == Running ensures InLog(q', o) || o in q'.missed {
      if o == id {
        assert id in q'.missed || q'.log[|q.log|].id == id;
      } else if o !in q.missed {
        assert InLog(q, o);
        var i :| 0 <= i < |q.log| && q.log[i].id == o;
        assert q'.log[i].id == o;
      }
    }
  }

  lemma ClaimRecordsInv(q: Queue, node: Uuid, id: Uuid)
    requires Inv(q) && IsNext(q, node, id)
    ensures OperationsInv(Claimed(q, id)) && BirthsInv(Claimed(q, id)) && OrphansInv(Claimed(q, id))
  {
    RecordsCarryOver(q, Claimed(q, id), id);
  }

  /** Marking one operation running changes nothing that is known of the records. */
  lemma RecordsCarryOver(q: Queue, q': Queue, id: Uuid)
    requires OperationsInv(q) && BirthsInv(q) && OrphansInv(q) && id in q.operations
    requires q'.births == q.births && q'.templates == q.templates && q'.orphans == q.orphans && |q'.log| >= |q.log|
    requires q'.operations == q.operations[id := q.operations[id].(status := Running)]
    ensures OperationsInv(q') && BirthsInv(q') && OrphansInv(q')
  {
  }

  lemma ClaimKeepsInv(q: Queue, node: Uuid, id: Uuid)
    requires Inv(q) && IsNext(q, node, id)
    ensures Inv(Claimed(q, id))
  {
    ClaimRunningInv(q, node, id);
    ClaimRecordsInv(q, node, id);
    if q.operations[id].template in q.templates {
      DispatchedLogInv(q, node, id);
    } else {
      MissedLogInv(q, node, id);
    }
  }

  lemma StepKeepsInv(q: Queue, s: Step)
    requires Inv(q)
    ensures Inv(Next(q, s))
  {
    match s {
      case SaveTemplate(id, t) => TemplateStepKeepsInv(q, Next(q, s));
      case DeleteTemplate(id) => TemplateStepKeepsInv(q, Next(q, s));
      case Create(_, _, _, _, _, _, _, _) =>
        if Accepts(q, s) {
          CreateKeepsInv(q, s);
        }
      case Claim(node, id) =>
        if IsNext(q, node, id) {
          ClaimKeepsInv(q, node, id);
        }
      case Report(id, node, outcome) =>
        if id in q.births && q.births[id].op.node == node {
          ReportKeepsInv(q, id, outcome);
        }
    }
  }

  lemma {:induction false} RunKeepsInv(q: Queue, steps: seq<Step>)
    requires Inv(q)
    ensures Inv(Run(q, steps))
    decreases |steps|
  {
    if steps != [] {
      StepKeepsInv(q, steps[0]);
      RunKeepsInv(Next(q, steps[0]), steps[1..]);
    }
  }

  // ---------------------------------------------------------------- main results

  /**
   * In every run: each operation is handed out at most once, only to its own node, only if it was
   * created approved; and of two operations handed to one node the first was created no later, unless
   * the second was saved only after the first had been handed out.
   */
  lemma DispatchSafety(steps: seq<Step>, i: nat, j: nat)
    requires i < j < |Run(EMPTY, steps).log|
    ensures var q := Run(EMPTY, steps);
      && q.log[i].id != q.log[j].id
      && q.log[i].id in q.births && q.log[j].id in q.births
      && q.births[q.log[i].id].op.node == q.log[i].node
      && q.births[q.log[i].id].op.status == Approved
      && (q.log[i].node == q.log[j].node ==> InOrder(q, q.log[i].id, i, q.log[j].id))
  {
    RunKeepsInv(EMPTY, steps);
    var q := Run(EMPTY, steps);
    assert DispatchOk(q, q.log[i]) && DispatchOk(q, q.log[j]);
  }

  /** Whatever was handed out was created from a template that needs no approval, or with a ticket. */
  lemma DispatchedWasApproved(steps: seq<Step>, i: nat)
    requires i < |Run(EMPTY, steps).log|
    ensures var q := Run(EMPTY, steps);
      && q.log[i].id in q.births
      && (!q.births[q.log[i].id].template.approvalRequired
          || (q.births[q.log[i].id].ticket.Some? && Trim(q.births[q.log[i].id].ticket.value) != []))
  {
    RunKeepsInv(EMPTY, steps);
    var q := Run(EMPTY, steps);
    assert DispatchOk(q, q.log[i]);
  }

  /** A creation carries a later time than everything saved before it. */
  predicate LaterThanAll(q: Queue, s: Step) {
    s.Create? ==> forall id :: id in q.births ==> q.births[id].op.createdAt < s.createdAt
  }

  ghost predicate AlwaysLater(q: Queue, steps: seq<Step>)
    decreases |steps|
  {
    steps == [] || (LaterThanAll(q, steps[0]) && AlwaysLater(Next(q, steps[0]), steps[1..]))
  }

  /** Different times, and whatever was saved after a dispatch was created after it. */
  ghost predicate TimesInv(q: Queue) {
    && (forall a, b :: a in q.births && b in q.births && a != b ==> q.births[a].op.createdAt != q.births[b].op.createdAt)
    && (forall i, b :: 0 <= i < |q.log| && b in q.births && q.log[i].id in q.births && i < q.births[b].savedAfter ==>
         q.births[q.log[i].id].op.createdAt < q.births[b].op.createdAt)
  }

  lemma StepKeepsTimes(q: Queue, s: Step)
    requires Inv(q) && TimesInv(q) && LaterThanAll(q, s)
    ensures TimesInv(Next(q, s))
  {
    match s {
      case Create(_, _, _, _, _, _, _, _) =>
        if Accepts(q, s) {
          CreateKeepsTimes(q, s);
        }
      case Claim(node, id) =>
        if IsNext(q, node, id) {
          ClaimKeepsTimes(q, id);
        }
      case _ =>
    }
  }

  lemma CreateKeepsTimes(q: Queue, s: Step)
    requires Inv(q) && TimesInv(q) && s.Create? && Accepts(q, s) && LaterThanAll(q, s)
    ensures TimesInv(Created(q, s))
  {
    forall i | 0 <= i < |q.log| ensures q.log[i].id in q.births {
      assert DispatchOk(q, q.log[i]);
    }
  }

  lemma ClaimKeepsTimes(q: Queue, id: Uuid)
    requires Inv(q) && TimesInv(q) && id in q.operations
    ensures TimesInv(Claimed(q, id))
  {
  }

  lemma {:induction false} RunKeepsTimes(q: Queue, steps: seq<Step>)
    requires Inv(q) && TimesInv(q) && AlwaysLater(q, steps)
    ensures TimesInv(Run(q, steps))
    decreases |steps|
  {
    if steps != [] {
      StepKeepsInv(q, steps[0]);
      StepKeepsTimes(q, steps[0]);
      RunKeepsTimes(Next(q, steps[0]), steps[1..]);
    }
  }

  /** If operations are saved in the order of their creation times, a node receives them in that order. */
  lemma DispatchInCreationOrder(steps: seq<Step>, i: nat, j: nat)
    requires AlwaysLater(EMPTY, steps) && i < j < |Run(EMPTY, steps).log|
    requires Run(EMPTY, steps).log[i].node == Run(EMPTY, steps).log[j].node
    ensures var q := Run(EMPTY, steps);
      && q.log[i].id in q.births && q.log[j].id in q.births
      && q.births[q.log[i].id].op.createdAt < q.births[q.log[j].id].op.createdAt
  {
    DispatchSafety(steps, i, j);
    RunKeepsTimes(EMPTY, steps);
  }

  /**
   * In every reachable queue a claim hands something out if and only if the operation is no orphan: its
   * template was still stored when the operation was saved, or has been saved again since.
   */
  lemma ClaimFindsTemplateIff(steps: seq<Step>, node: Uuid, id: Uuid)
    requires IsNext(Run(EMPTY, steps), node, id)
    ensures var q := Run(EMPTY, steps);
      var q' := Next(q, Claim(node, id));
      && (q.operations[id].template in q.templates <==> id !in q.orphans)
      && (InLog(q', id) <==> id !in q.orphans)
      && (id in q'.missed <==> id in q.orphans)
  {
    RunKeepsInv(EMPTY, steps);
    var q := Run(EMPTY, steps);
    EligibleIsNew(q, node, id);
    var q' := Next(q, Claim(node, id));
    assert id !in q.orphans ==> q'.log[|q.log|].id == id;
    assert id in q.orphans ==> q'.log == q.log;
  }

  /** An operation marked running has been handed out if and only if it was not claimed in vain. */
  lemma RunningWasDispatchedIff(steps: seq<Step>, id: Uuid)
    requires var q := Run(EMPTY, steps); id in q.operations && q.operations[id].status == Running
    ensures InLog(Run(EMPTY, steps), id) <==> id !in Run(EMPTY, steps).missed
  {
    RunKeepsInv(EMPTY, steps);
    var q := Run(EMPTY, steps);
    if i :| 0 <= i < |q.log| && q.log[i].id == id {
      assert DispatchOk(q, q.log[i]);
    }
  }

  /** The template is still stored when an operation built from it is saved. */
  predicate TemplateStored(q: Queue, s: Step) {
    s.Create? && Accepts(q, s) ==> s.templateId in q.templates
  }

  ghost predicate AlwaysStored(q: Queue, steps: seq<Step>)
    decreases |steps|
  {
    steps == [] || (TemplateStored(q, steps[0]) && AlwaysStored(Next(q, steps[0]), steps[1..]))
  }

  lemma StepWithoutOrphans(q: Queue, s: Step)
    requires Inv(q) && q.orphans == {} && q.missed == {} && TemplateStored(q, s)
    ensures Next(q, s).orphans == {} && Next(q, s).missed == {}
  {
  }

  /** If no template is deleted between its reading and the save, no operation is orphaned or claimed in vain. */
  lemma {:induction false} NoOrphans(q: Queue, steps: seq<Step>)
    requires Inv(q) && q.orphans == {} && q.missed == {} && AlwaysStored(q, steps)
    ensures Run(q, steps).orphans == {} && Run(q, steps).missed == {}
    decreases |steps|
  {
    if steps != [] {
      StepKeepsInv(q, steps[0]);
      StepWithoutOrphans(q, steps[0]);
      NoOrphans(Next(q, steps[0]), steps[1..]);
    }
  }

  /** Such a deletion, and the claim after it: the operation is running and nobody has it. */
  lemma DeletedTemplateIsMissed(node: Uuid, t: Template, params: Params)
    requires Rendered(t, params).Some? && !t.approvalRequired
    ensures var steps := [SaveTemplate(1, t), DeleteTemplate(1), Create(2, true, node, 1, t, params, None, 0), Claim(node, 2)];
      var q := Run(EMPTY, steps);
      q.log == [] && 2 in q.operations && q.operations[2].status == Running
  {
    var steps := [SaveTemplate(1, t), DeleteTemplate(1), Create(2, true, node, 1, t, params, None, 0), Claim(node, 2)];
    RunFour(EMPTY, steps);
    var q2 := Next(Next(EMPTY, steps[0]), steps[1]);
    assert q2 == EMPTY;
    var q3 := Next(q2, steps[2]);
    assert q3.operations == map[2 := Operation(node, 1, params, Approved, 0)];
    assert Eligible(q3, node, 2) && IsNext(q3, node, 2);
  }

  lemma RunFour(q: Queue, s: seq<Step>)
    requires |s| == 4
    ensures Run(q, s) == Next(Next(Next(Next(q, s[0]), s[1]), s[2]), s[3])
  {
    assert s[1..][1..] == s[2..] && s[2..][1..] == s[3..] && s[3..][1..] == [];
    var q2 := Next(Next(q, s[0]), s[1]);
    assert Run(q, s) == Run(Next(q, s[0]), s[1..]) == Run(q2, s[2..]);
    assert Run(q2, s[2..]) == Run(Next(q2, s[2]), s[3..]) == Run(Next(Next(q2, s[2]), s[3]), []);
  }

  /** A command is rendered whenever the template is still the one the operation was created with. */
  lemma UnchangedTemplateRenders(steps: seq<Step>, i: nat)
    requires i < |Run(EMPTY, steps).log|
    ensures var q := Run(EMPTY, steps);
      && q.log[i].id in q.births
      && (q.log[i].command.Some? <==> Rendered(q.log[i].template, q.births[q.log[i].id].op.params).Some?)
      && (q.log[i].template == q.births[q.log[i].id].template ==> q.log[i].command.Some?)
  {
    RunKeepsInv(EMPTY, steps);
    var q := Run(EMPTY, steps);
    assert DispatchOk(q, q.log[i]);
  }

  /**
   * The guard that decides it, on templates whose braces are all placeholders and values without an opening
   * brace: every parameter is allowed, and every allowed placeholder has a value that can be written.
   */
  lemma DispatchRendersIff(steps: seq<Step>, i: nat, ps: seq<Piece>)
    requires i < |Run(EMPTY, steps).log|
    requires var q := Run(EMPTY, steps);
      q.log[i].id in q.births && q.log[i].template.command == Flatten(ps)
      && Clean(ps) && CleanNames(q.log[i].template.allowed) && CleanValues(q.births[q.log[i].id].op.params)
    ensures var q := Run(EMPTY, steps);
      var allowed, params := q.log[i].template.allowed, q.births[q.log[i].id].op.params;
      && (q.log[i].command.Some? <==> KeysAllowed(allowed, params) && AllFillable(ps, allowed, params))
      && (q.log[i].command.Some? ==> q.log[i].command.value == Substitute(ps, allowed, params))
  {
    RunKeepsInv(EMPTY, steps);
    var q := Run(EMPTY, steps);
    assert DispatchOk(q, q.log[i]);
    LoopIsSubstitution(ps, q.log[i].template.allowed, q.births[q.log[i].id].op.params);
  }

  /** An operation created without its approval stays out of reach in every later state. */
  lemma WaitingIsNeverDispatched(steps: seq<Step>, id: Uuid)
    requires var q := Run(EMPTY, steps); id in q.births && q.births[id].op.status == Waiting
    ensures !InLog(Run(EMPTY, steps), id)
  {
    RunKeepsInv(EMPTY, steps);
    var q := Run(EMPTY, steps);
    assert forall i :: 0 <= i < |q.log| ==> DispatchOk(q, q.log[i]);
  }

  /** Editing a template after creation can hand out an operation whose command does not render. */
  lemma EditedTemplateFails(node: Uuid)
    ensures var t := Template("", ["a"], false);
      var steps := [SaveTemplate(1, t), Create(2, true, node, 1, t, map["a" := Str("x")], None, 0),
                    SaveTemplate(1, Template("", [], false)), Claim(node, 2)];
      var q := Run(EMPTY, steps);
      |q.log| == 1 && q.log[0].command.None? && 2 in q.operations && q.operations[2].status == Running
  {
    var before, after := Template("", ["a"], false), Template("", [], false);
    var params: Params := map["a" := Str("x")];
    var steps := [SaveTemplate(1, before), Create(2, true, node, 1, before, params, None, 0), SaveTemplate(1, after), Claim(node, 2)];
    NothingToFill(before.allowed, params);
    assert KeysAllowed(before.allowed, params) && "a" in params && !KeysAllowed(after.allowed, params);
    RunFour(EMPTY, steps);
    var q2 := Next(Next(EMPTY, steps[0]), steps[1]);
    assert q2.operations == map[2 := Operation(node, 1, params, Approved, 0)];
    var q3 := Next(q2, steps[2]);
    assert Eligible(q3, node, 2) && IsNext(q3, node, 2);
    assert Next(q3, steps[3]).log == [Dispatch(2, node, after, None)];
  }

  /** The empty command has nothing to fill in. */
  lemma {:induction false} NothingToFill(allowed: seq<string>, params: Params)
    ensures RenderFrom("", allowed, params) == Ok("")
    decreases |allowed|
  {
    if allowed != [] {
      NothingToFill(allowed[1..], params);
      assert !(Placeholder(allowed[0]) <= "");
    }
  }

  // ---------------------------------------------------------------- the store

  class MemoryOperations {
    var templates: map<Uuid, Template>
    var operations: map<Uuid, Operation>
    ghost var births: map<Uuid, Birth>
    ghost var log: seq<Dispatch>
    ghost var orphans: set<Uuid>
    ghost var missed: set<Uuid>

    ghost function View(): Queue
      reads this
    {
      Queue(templates, operations, births, log, orphans, missed)
    }

    constructor ()
      ensures View() == EMPTY
    {
      templates, operations, births, log, orphans, missed := map[], map[], map[], [], {}, {};
    }

    method SaveOperationTemplate(id: Uuid, template: Template)
      modifies this
      ensures View() == Next(old(View()), SaveTemplate(id, template))
      ensures templates == old(templates)[id := template] && operations == old(operations)
    {
      templates := templates[id := template];
      orphans := set o | o in orphans && !(o in births && births[o].op.template == id);
    }

    method DeleteOperationTemplate(id: Uuid)
      modifies this
      ensures View() == Next(old(View()), DeleteTemplate(id))
      ensures templates == old(templates) - {id}
      ensures forall o :: o in operations <==> o in old(operations) && (id in old(templates) ==> old(operations)[o].template != id)
      ensures forall o :: o in operations ==> operations[o] == old(operations)[o]
    {
      if id !in templates {
        return;
      }
      templates := templates - {id};
      var rest := operations.Keys;
      while rest != {}
        invariant rest <= old(operations).Keys && View() == old(View()).(templates := old(templates) - {id}, operations := operations)
        invariant operations == map o | o in old(operations) && (o in rest || old(operations)[o].template != id) :: old(operations)[o]
      {
        var o :| o in rest;
        rest := rest - {o};
        if operations[o].template == id {
          operations := operations - {o};
        }
      }
    }

    /** The first access of `create_node_operation`. */
    method ReadTemplate(id: Uuid) returns (read: Option<Template>)
      ensures read == if id in templates then Some(templates[id]) else None
    {
      read := if id in templates then Some(templates[id]) else None;
    }

    /** The rest of `create_node_operation`, under a fresh id, with what it read of the template before. */
    method CreateNodeOperation(id: Uuid, now: int, nodeExists: bool, node: Uuid, templateId: Uuid, read: Option<Template>, params: Params, ticket: Option<string>)
      returns (ok: bool)
      requires id !in births
      modifies this
      ensures ok <==> nodeExists && read.Some? && Rendered(read.value, params).Some?
      ensures !ok ==> View() == old(View())
      ensures ok ==> View() == Next(old(View()), Create(id, nodeExists, node, templateId, read.value, params, ticket, now))
      ensures ok ==> id in operations && operations == old(operations)[id := operations[id]]
      ensures ok ==> operations[id] == Operation(node, templateId, params, operations[id].status, now)
      ensures ok ==> (operations[id].status == Approved <==> !read.value.approvalRequired || (ticket.Some? && Trim(ticket.value) != []))
      ensures ok ==> (operations[id].status == Approved || operations[id].status == Waiting)
      ensures ok ==> id in births && births[id].template == read.value && births[id].ticket == ticket
    {
      if !nodeExists || read.None? {
        return false;
      }
      var template := read.value;
      var rendered := RenderCommand(template.command, template.allowed, params);
      if rendered.Err? {
        return false;
      }
      var status := if template.approvalRequired && !HasTicket(ticket) then Waiting else Approved;
      var op := Operation(node, templateId, params, status, now);
      operations := operations[id := op];
      births := births[id := Birth(op, template, ticket, |log|)];
      orphans := if templateId in templates then orphans else orphans + {id};
      return true;
    }

    /** The first created of the node's approved operations. */
    method SelectNext(node: Uuid) returns (next: Option<Uuid>)
      ensures next.None? <==> forall o :: !Eligible(View(), node, o)
      ensures next.Some? ==> IsNext(View(), node, next.value)
    {
      next := None;
      var rest := operations.Keys;
      while rest != {}
        invariant rest <= operations.Keys
        invariant next.None? ==> forall o :: o in operations.Keys - rest ==> !Eligible(View(), node, o)
        invariant next.Some? ==> Eligible(View(), node, next.value)
        invariant next.Some? ==> forall o :: o in operations.Keys - rest && Eligible(View(), node, o) ==>
                    operations[next.value].createdAt <= operations[o].createdAt
      {
        var o :| o in rest;
        rest := rest - {o};
        if operations[o].node == node && operations[o].status == Approved {
          if next.None? || operations[o].createdAt < operations[next.value].createdAt {
            next := Some(o);
          }
        }
      }
    }

    /** `claim_next_node_operation`: marks the operation running before it looks for the template. */
    method ClaimNextNodeOperation(node: Uuid) returns (next: Option<Uuid>, template: Option<Template>)
      modifies this
      ensures next.None? ==> View() == old(View()) && template.None? && forall o :: !Eligible(View(), node, o)
      ensures next.Some? ==> IsNext(old(View()), node, next.value)
      ensures next.Some? ==> View() == Next(old(View()), Claim(node, next.value))
      ensures next.Some? ==> operations == old(operations)[next.value := old(operations)[next.value].(status := Running)]
      ensures next.Some? && Inv(old(View())) ==> (template.Some? <==> next.value !in old(orphans))
      ensures next.Some? && template.None? ==> log == old(log)
      ensures next.Some? && template.Some? ==> |log| == |old(log)| + 1 && log[|old(log)|].id == next.value && log[|old(log)|].template == template.value
    {
      next := SelectNext(node);
      if next.None? {
        return None, None;
      }
      var id := next.value;
      var op := operations[id];
      operations := operations[id := op.(status := Running)];
      if op.template !in templates {
        missed := missed + {id};
        return next, None;
      }
      template := Some(templates[op.template]);
      log := log + [Dispatch(id, op.node, template.value, Rendered(template.value, op.params))];
    }

    /** The first access of `report_node_operation_result`. */
    method ReadOperation(id: Uuid) returns (read: Option<Operation>)
      ensures read == if id in operations then Some(operations[id]) else None
    {
      read := if id in operations then Some(operations[id]) else None;
    }

    /** The rest of it: refused for an unknown operation and for another node's, else the record read is saved, finished. */
    method ReportNodeOperationResult(id: Uuid, node: Uuid, read: Option<Operation>, outcome: Outcome) returns (ok: bool)
      requires read.Some? ==> id in births && births[id].op == read.value.(status := births[id].op.status)
      modifies this
      ensures ok <==> read.Some? && read.value.node == node
      ensures !ok ==> View() == old(View())
      ensures ok ==> View() == Next(old(View()), Report(id, node, outcome))
      ensures ok ==> operations == old(operations)[id := read.value.(status := Finished(outcome))]
    {
      if read.None? || read.value.node != node {
        return false;
      }
      operations := operations[id := read.value.(status := Finished(outcome))];
      return true;
    }
  }
}
