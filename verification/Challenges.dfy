/**
 * TXT records of DNS-01 challenges: what is created when an order is presented and what is deleted
 * when it is finalized.  Orders are numbered by creation; zone rows never change.
 */
module Challenges {
  import opened Common
  import opened CertificateOrders
  import opened Text
  import opened DnsNames

  /** The JSON payload of an order; `urls` tells whether the four ACME addresses are present. */
  datatype Payload = Payload(zoneName: Option<string>, recordType: Option<string>, recordName: Option<string>,
                             recordValue: Option<string>, ttl: Option<nat>, urls: bool)

  datatype Zone = Zone(zoneName: string, externalId: string)

  datatype Challenge = Challenge(zoneId: string, zoneName: string, fqdn: string, value: string, ttl: nat)

  datatype TxtRecord = TxtRecord(zoneId: string, name: string, value: string)

  /** `presented` and `cleaned` are history: the record created for the order and whether it was deleted. */
  datatype Order = Order(zone: Zone, payload: Payload, status: OrderStatus, warned: bool,
                         presented: Option<TxtRecord>, cleaned: bool)

  /** `abandoned` is history: the records that were outstanding when their order was put back. */
  datatype World = World(orders: seq<Order>, records: multiset<TxtRecord>, abandoned: multiset<TxtRecord>)

  const EMPTY_PAYLOAD := Payload(None, None, None, None, None, false)

  predicate HasPreparedPayload(p: Payload) {
    p.recordName.Some? && p.recordValue.Some? && p.urls
  }

  predicate Absent(s: Option<string>) {
    s.None? || Blank(s.value)
  }

  /** `challenge_from_payload`; `None` stands for its errors. */
  function ChallengeFromPayload(zone: Zone, p: Payload): Option<Challenge> {
    var kind := Upper(if p.recordType.Some? then p.recordType.value else "TXT");
    if kind != "TXT" then None
    else if Absent(p.recordName) then None
    else if Absent(p.recordValue) then None
    else Some(Challenge(zone.externalId,
                        if p.zoneName.Some? then p.zoneName.value else zone.zoneName,
                        p.recordName.value, p.recordValue.value,
                        if p.ttl.Some? then p.ttl.value else 60))
  }

  /** The record the provider creates for a challenge, and looks up to delete it. */
  function RecordOf(c: Challenge): TxtRecord {
    TxtRecord(c.zoneId, NormalizeRecordName(c.fqdn, c.zoneName), c.value)
  }

  /** A challenge named by the DNS-01 rule in a zone that covers the identifier is stored under exactly that name. */
  lemma PresentedRecordInZone(zone: Zone, p: Payload, identifier: string)
    requires ChallengeFromPayload(zone, p).Some? && p.recordName == Some(Dns01RecordName(identifier))
    requires InZone(DnsDomain(identifier), ChallengeFromPayload(zone, p).value.zoneName)
    ensures var c := ChallengeFromPayload(zone, p).value;
      RecordOf(c) == TxtRecord(zone.externalId, Dns01RecordName(identifier), p.recordValue.value)
      && HasSuffix(RecordOf(c).name, "." + c.zoneName)
  {
    ChallengeRecordInZone(identifier, ChallengeFromPayload(zone, p).value.zoneName);
  }

  // ---------------------------------------------------------------- provider

  function CreateRecord(records: multiset<TxtRecord>, r: TxtRecord): multiset<TxtRecord> {
    records + multiset{r}
  }

  /** Deletes one record with this zone, name and value, if there is one. */
  function DeleteRecord(records: multiset<TxtRecord>, r: TxtRecord): multiset<TxtRecord> {
    records - multiset{r}
  }

  // ---------------------------------------------------------------- steps

  datatype PresentOutcome =
    | PrepareFailed
    | CreateRefused
    | CreatedButReportedFailed
    | AcknowledgeFailed
    | CrashedBeforeCreate
    | CrashedAfterCreate
    | StatusUpdateFailed
    | PresentedOk

  datatype FinalizeOutcome =
    | AcmeFailed
    | CleanupOk
    | CleanupFailed
    | CleanedButReportedFailed
    | CrashedBeforeCleanup
    | CrashedAfterCleanup

  datatype Step =
    | Submit(zone: Zone, payload: Payload)
    | Present(order: nat, fromAcme: Payload, presentOutcome: PresentOutcome)
    | Finalize(order: nat, finalizeOutcome: FinalizeOutcome)
    | Requeue(order: nat, retry: bool)      // a retry, of failed orders only, or a reset

  /** The payload the ACME client prepares: the stored one if it is complete, otherwise a new one. */
  function Prepared(o: Order, fromAcme: Payload): Payload {
    if HasPreparedPayload(o.payload) then o.payload else fromAcme
  }

  /** One order through `process_dns_challenge` and the status update that follows. */
  function PresentOrder(o: Order, records: multiset<TxtRecord>, fromAcme: Payload, outcome: PresentOutcome)
    : (Order, multiset<TxtRecord>)
  {
    var payload := Prepared(o, fromAcme);
    if outcome.CrashedBeforeCreate? then (o.(status := Presenting), records)
    else if outcome.PrepareFailed? then (o.(status := DnsFailed), records)
    else
      match ChallengeFromPayload(o.zone, payload)
      case None => (o.(status := DnsFailed), records)
      case Some(c) =>
        var created := o.(presented := Some(RecordOf(c)));
        match outcome
        case CreateRefused => (o.(status := DnsFailed), records)
        case PresentedOk => (created.(status := Presented, payload := payload), CreateRecord(records, RecordOf(c)))
        case StatusUpdateFailed => (created.(status := Presenting, payload := payload), CreateRecord(records, RecordOf(c)))
        case CrashedAfterCreate => (created.(status := Presenting), CreateRecord(records, RecordOf(c)))
        case _ => (created.(status := DnsFailed), CreateRecord(records, RecordOf(c)))
  }

  /** One order through `finalize_certificate_order` and the persist that follows. */
  function FinalizeOrder(o: Order, records: multiset<TxtRecord>, outcome: FinalizeOutcome): (Order, multiset<TxtRecord>) {
    match ChallengeFromPayload(o.zone, o.payload)
    case None => (o.(status := IssueFailed), records)
    case Some(c) =>
      match outcome
      case AcmeFailed => (o.(status := IssueFailed), records)
      case CleanupOk => (o.(status := Issued, cleaned := true), DeleteRecord(records, RecordOf(c)))
      case CleanupFailed => (o.(status := Issued, warned := true), records)
      case CleanedButReportedFailed => (o.(status := Issued, warned := true, cleaned := true), DeleteRecord(records, RecordOf(c)))
      case CrashedBeforeCleanup => (o.(status := Issuing), records)
      case CrashedAfterCleanup => (o.(status := Issuing, cleaned := true), DeleteRecord(records, RecordOf(c)))
  }

  /** The record of the order that is still there, if any. */
  function Outstanding(o: Order): multiset<TxtRecord> {
    if o.presented.Some? && !o.cleaned then multiset{o.presented.value} else multiset{}
  }

  /** The order as a retry or reset stores it: what it had presented is forgotten. */
  function PutBack(o: Order): Order {
    o.(status := Pending, payload := EMPTY_PAYLOAD, presented := None, cleaned := false)
  }

  predicate Requeueable(o: Order, retry: bool) {
    if retry then o.status.DnsFailed? || o.status.IssueFailed? else !o.status.Issued?
  }

  function Next(w: World, step: Step): World {
    match step
    case Submit(zone, payload) =>
      w.(orders := w.orders + [Order(zone, payload, Pending, false, None, false)])
    case Present(i, fromAcme, outcome) =>
      if i >= |w.orders| || !w.orders[i].status.Pending? then w
      else
        var (o, records) := PresentOrder(w.orders[i], w.records, fromAcme, outcome);
        w.(orders := w.orders[i := o], records := records)
    case Finalize(i, outcome) =>
      if i >= |w.orders| || !w.orders[i].status.Presented? then w
      else
        var (o, records) := FinalizeOrder(w.orders[i], w.records, outcome);
        w.(orders := w.orders[i := o], records := records)
    case Requeue(i, retry) =>
      if i >= |w.orders| || !Requeueable(w.orders[i], retry) then w
      else w.(orders := w.orders[i := PutBack(w.orders[i])], abandoned := w.abandoned + Outstanding(w.orders[i]))
  }

  function Run(w: World, steps: seq<Step>): World
    decreases |steps|
  {
    if steps == [] then w else Run(Next(w, steps[0]), steps[1..])
  }

  // ---------------------------------------------------------------- accounting

  /** Whether `r` is the record of this order that should still exist. */
  function Left(o: Order, r: TxtRecord): nat {
    if o.presented == Some(r) && !o.cleaned then 1 else 0
  }

  /** How many orders account for a record equal to `r`. */
  function AllLeft(orders: seq<Order>, r: TxtRecord): nat {
    if orders == [] then 0 else Left(orders[0], r) + AllLeft(orders[1..], r)
  }

  lemma {:induction false} AllLeftUpdate(orders: seq<Order>, i: nat, o: Order, r: TxtRecord)
    requires i < |orders|
    ensures AllLeft(orders[i := o], r) + Left(orders[i], r) == AllLeft(orders, r) + Left(o, r)
    ensures Left(orders[i], r) <= AllLeft(orders, r)
  {
    if i == 0 {
      assert orders[i := o][1..] == orders[1..];
    } else {
      AllLeftUpdate(orders[1..], i - 1, o, r);
      assert orders[i := o][1..] == orders[1..][i - 1 := o];
    }
  }

  lemma {:induction false} AllLeftAppend(orders: seq<Order>, o: Order, r: TxtRecord)
    ensures AllLeft(orders + [o], r) == AllLeft(orders, r) + Left(o, r)
  {
    if orders != [] {
      AllLeftAppend(orders[1..], o, r);
      assert (orders + [o])[1..] == orders[1..] + [o];
    } else {
      assert ([] + [o])[1..] == [];
    }
  }

  /** The order's payload names the record that was presented for it, and that record has not been deleted. */
  predicate PayloadNamesRecord(o: Order) {
    && ChallengeFromPayload(o.zone, o.payload).Some? && !o.cleaned
    && o.presented == Some(RecordOf(ChallengeFromPayload(o.zone, o.payload).value))
  }

  /** What the status of an order says about its record. */
  predicate Consistent(o: Order) {
    && (o.status.Pending? ==> o.presented.None? && !o.cleaned)
    && (o.status.Presented? || o.status.IssueFailed? ==> PayloadNamesRecord(o))
    && (o.status.Issued? && !o.warned ==> o.cleaned)
  }

  /** The provider holds exactly the foreign records, the abandoned ones, and those the orders account for. */
  ghost predicate Inv(w: World, foreign: multiset<TxtRecord>) {
    && (forall r: TxtRecord :: w.records[r] == foreign[r] + w.abandoned[r] + AllLeft(w.orders, r))
    && forall i :: 0 <= i < |w.orders| ==> Consistent(w.orders[i])
  }

  lemma PresentAccounts(o: Order, records: multiset<TxtRecord>, fromAcme: Payload, outcome: PresentOutcome)
    requires Consistent(o) && o.status.Pending?
    ensures var (o', records') := PresentOrder(o, records, fromAcme, outcome);
      Consistent(o') && forall r: TxtRecord :: records'[r] == records[r] + Left(o', r)
  {
  }

  /** Finalization deletes the very record that was presented. */
  lemma FinalizeAccounts(o: Order, records: multiset<TxtRecord>, outcome: FinalizeOutcome)
    requires Consistent(o) && o.status.Presented? && forall r: TxtRecord :: Left(o, r) <= records[r]
    ensures var (o', records') := FinalizeOrder(o, records, outcome);
      Consistent(o') && forall r: TxtRecord :: records'[r] + Left(o, r) == records[r] + Left(o', r)
  {
    assert Left(o, o.presented.value) == 1;
  }

  /** Replacing one order and the records in balance keeps the account. */
  lemma ReplaceKeepsInv(w: World, foreign: multiset<TxtRecord>, i: nat, o: Order, records: multiset<TxtRecord>, abandoned: multiset<TxtRecord>)
    requires Inv(w, foreign) && i < |w.orders| && Consistent(o)
    requires forall r: TxtRecord :: records[r] + w.abandoned[r] + Left(w.orders[i], r) == w.records[r] + abandoned[r] + Left(o, r)
    ensures Inv(World(w.orders[i := o], records, abandoned), foreign)
  {
    forall r: TxtRecord ensures records[r] == foreign[r] + abandoned[r] + AllLeft(w.orders[i := o], r) {
      AllLeftUpdate(w.orders, i, o, r);
    }
  }

  /** Putting an order back moves its outstanding record from the order's account to the abandoned ones. */
  lemma RequeueKeepsInv(w: World, foreign: multiset<TxtRecord>, i: nat, retry: bool)
    requires Inv(w, foreign)
    ensures Inv(Next(w, Requeue(i, retry)), foreign)
  {
    if i < |w.orders| && Requeueable(w.orders[i], retry) {
      var o := w.orders[i];
      assert forall r: TxtRecord :: Outstanding(o)[r] == Left(o, r) && Left(PutBack(o), r) == 0;
      ReplaceKeepsInv(w, foreign, i, PutBack(o), w.records, w.abandoned + Outstanding(o));
    }
  }

  lemma StepKeepsInv(w: World, foreign: multiset<TxtRecord>, step: Step)
    requires Inv(w, foreign)
    ensures Inv(Next(w, step), foreign)
  {
    match step
    case Submit(zone, payload) =>
      var o := Order(zone, payload, Pending, false, None, false);
      forall r: TxtRecord ensures AllLeft(w.orders + [o], r) == AllLeft(w.orders, r) {
        AllLeftAppend(w.orders, o, r);
      }
    case Present(i, fromAcme, outcome) =>
      if i < |w.orders| && w.orders[i].status.Pending? {
        PresentAccounts(w.orders[i], w.records, fromAcme, outcome);
        var (o, records) := PresentOrder(w.orders[i], w.records, fromAcme, outcome);
        ReplaceKeepsInv(w, foreign, i, o, records, w.abandoned);
      }
    case Finalize(i, outcome) =>
      if i < |w.orders| && w.orders[i].status.Presented? {
        forall r: TxtRecord ensures Left(w.orders[i], r) <= w.records[r] {
          AllLeftUpdate(w.orders, i, w.orders[i], r);
        }
        FinalizeAccounts(w.orders[i], w.records, outcome);
        var (o, records) := FinalizeOrder(w.orders[i], w.records, outcome);
        ReplaceKeepsInv(w, foreign, i, o, records, w.abandoned);
      }
    case Requeue(i, retry) => RequeueKeepsInv(w, foreign, i, retry);
  }

  /**
   * Main theorem: in every run, retries and resets included, the provider holds exactly the foreign
   * records, those abandoned by a retry or reset, and those the orders still account for.
   */
  lemma {:induction false} RunKeepsAccount(w: World, foreign: multiset<TxtRecord>, steps: seq<Step>)
    requires Inv(w, foreign)
    ensures Inv(Run(w, steps), foreign)
    decreases |steps|
  {
    if steps != [] {
      StepKeepsInv(w, foreign, steps[0]);
      RunKeepsAccount(Next(w, steps[0]), foreign, steps[1..]);
    }
  }

  /** Only a retry or reset abandons records. */
  lemma {:induction false} NothingAbandoned(w: World, steps: seq<Step>)
    requires forall i :: 0 <= i < |steps| ==> !steps[i].Requeue?
    ensures Run(w, steps).abandoned == w.abandoned
    decreases |steps|
  {
    if steps != [] {
      NothingAbandoned(Next(w, steps[0]), steps[1..]);
    }
  }

  function Start(foreign: multiset<TxtRecord>): World {
    World([], foreign, multiset{})
  }

  lemma {:induction false} AllLeftConcat(a: seq<Order>, b: seq<Order>, r: TxtRecord)
    ensures AllLeft(a + b, r) == AllLeft(a, r) + AllLeft(b, r)
  {
    if a == [] {
      assert a + b == b;
    } else {
      AllLeftConcat(a[1..], b, r);
      assert (a + b)[1..] == a[1..] + b;
    }
  }

  lemma AllLeftAround(orders: seq<Order>, i: nat, r: TxtRecord)
    requires i < |orders|
    ensures AllLeft(orders, r) == AllLeft(orders[..i], r) + Left(orders[i], r) + AllLeft(orders[i + 1..], r)
  {
    var tail := orders[i..];
    assert orders == orders[..i] + tail && tail[0] == orders[i] && tail[1..] == orders[i + 1..];
    AllLeftConcat(orders[..i], tail, r);
  }

  /** An order issued without a warning has no record left, whatever the other orders did: they account for all there is. */
  lemma IssuedOrderLeavesNothing(foreign: multiset<TxtRecord>, steps: seq<Step>, i: nat, r: TxtRecord)
    requires var w := Run(Start(foreign), steps); i < |w.orders| && w.orders[i].status.Issued? && !w.orders[i].warned
    ensures var w := Run(Start(foreign), steps);
      && Left(w.orders[i], r) == 0
      && w.records[r] == foreign[r] + w.abandoned[r] + AllLeft(w.orders[..i], r) + AllLeft(w.orders[i + 1..], r)
  {
    RunKeepsAccount(Start(foreign), foreign, steps);
    var w := Run(Start(foreign), steps);
    assert Consistent(w.orders[i]);
    AllLeftAround(w.orders, i, r);
  }

  lemma {:induction false} NothingLeft(orders: seq<Order>, r: TxtRecord)
    requires forall i :: 0 <= i < |orders| ==> orders[i].cleaned
    ensures AllLeft(orders, r) == 0
  {
    if orders != [] {
      NothingLeft(orders[1..], r);
    }
  }

  predicate AllIssuedCleanly(orders: seq<Order>) {
    forall i :: 0 <= i < |orders| ==> orders[i].status.Issued? && !orders[i].warned
  }

  /** If every order ended up issued without a warning, only abandoned records are left behind. */
  lemma IssuedOrdersLeaveNothing(foreign: multiset<TxtRecord>, steps: seq<Step>)
    requires AllIssuedCleanly(Run(Start(foreign), steps).orders)
    ensures Run(Start(foreign), steps).records == foreign + Run(Start(foreign), steps).abandoned
    ensures (forall i :: 0 <= i < |steps| ==> !steps[i].Requeue?) ==> Run(Start(foreign), steps).records == foreign
  {
    RunKeepsAccount(Start(foreign), foreign, steps);
    var w := Run(Start(foreign), steps);
    forall i | 0 <= i < |w.orders| ensures w.orders[i].cleaned {
      assert Consistent(w.orders[i]);
    }
    forall r: TxtRecord ensures w.records[r] == foreign[r] + w.abandoned[r] {
      NothingLeft(w.orders, r);
    }
    if forall i :: 0 <= i < |steps| ==> !steps[i].Requeue? {
      NothingAbandoned(Start(foreign), steps);
      assert foreign + multiset{} == foreign;
    }
  }

  // ---------------------------------------------------------------- retry and reset

  lemma OutstandingByStatus(o: Order)
    requires Consistent(o)
    ensures o.status.Pending? ==> Outstanding(o) == multiset{}
    ensures o.status.Presented? || o.status.IssueFailed? ==>
              ChallengeFromPayload(o.zone, o.payload).Some? && Outstanding(o) == multiset{RecordOf(ChallengeFromPayload(o.zone, o.payload).value)}
  {
  }

  /**
   * What the status, which the operator sees, says about a retry or reset in every reachable state: a
   * pending order loses nothing, and one that is presented or failed at issuance loses exactly the record
   * its payload names.
   */
  lemma RequeueByStatus(foreign: multiset<TxtRecord>, steps: seq<Step>, i: nat, retry: bool)
    requires var w := Run(Start(foreign), steps); i < |w.orders| && Requeueable(w.orders[i], retry)
    ensures var w := Run(Start(foreign), steps);
      var o, after := w.orders[i], Next(w, Requeue(i, retry)).abandoned;
      && (o.status.Pending? ==> after == w.abandoned)
      && (o.status.Presented? || o.status.IssueFailed? ==>
            && ChallengeFromPayload(o.zone, o.payload).Some?
            && after == w.abandoned + multiset{RecordOf(ChallengeFromPayload(o.zone, o.payload).value)})
  {
    RunKeepsAccount(Start(foreign), foreign, steps);
    var w := Run(Start(foreign), steps);
    assert Consistent(w.orders[i]);
    OutstandingByStatus(w.orders[i]);
  }

  /** One order brought to the given outcome of its presenting, or of its finalization. */
  function AfterPresent(zone: Zone, fromAcme: Payload, outcome: PresentOutcome): Order {
    PresentOrder(Order(zone, EMPTY_PAYLOAD, Pending, false, None, false), multiset{}, fromAcme, outcome).0
  }

  function AfterFinalize(zone: Zone, fromAcme: Payload, outcome: FinalizeOutcome): Order {
    FinalizeOrder(AfterPresent(zone, fromAcme, PresentedOk), multiset{}, outcome).0
  }

  /** The operator sees the same two orders, but one has a record outstanding and the other has none. */
  predicate LookAlike(a: Order, b: Order, status: OrderStatus) {
    && a.status == b.status == status && a.payload == b.payload && a.zone == b.zone && a.warned == b.warned
    && Outstanding(a) != multiset{} && Outstanding(b) == multiset{}
  }

  /**
   * In the three remaining statuses what is stored does not tell whether a retry or reset loses a record: the
   * provider may have created the record it reported as failed, and a crash stores no message at all.
   */
  lemma RequeueUndecidedByStatus(zone: Zone, fromAcme: Payload)
    requires ChallengeFromPayload(zone, fromAcme).Some?
    ensures LookAlike(AfterPresent(zone, fromAcme, CreatedButReportedFailed), AfterPresent(zone, fromAcme, CreateRefused), DnsFailed)
    ensures LookAlike(AfterPresent(zone, fromAcme, CrashedAfterCreate), AfterPresent(zone, fromAcme, CrashedBeforeCreate), Presenting)
    ensures LookAlike(AfterFinalize(zone, fromAcme, CrashedBeforeCleanup), AfterFinalize(zone, fromAcme, CrashedAfterCleanup), Issuing)
  {
    var r := RecordOf(ChallengeFromPayload(zone, fromAcme).value);
    assert r in multiset{r};
    assert Prepared(Order(zone, EMPTY_PAYLOAD, Pending, false, None, false), fromAcme) == fromAcme;
  }

  lemma RunFive(w: World, s: seq<Step>)
    requires |s| == 5
    ensures Run(w, s) == Next(Next(Next(Next(Next(w, s[0]), s[1]), s[2]), s[3]), s[4])
  {
    assert s[1..][1..] == s[2..] && s[2..][1..] == s[3..] && s[3..][1..] == s[4..] && s[4..][1..] == [];
    var w2 := Next(Next(w, s[0]), s[1]);
    assert Run(w, s) == Run(Next(w, s[0]), s[1..]) == Run(w2, s[2..]);
    var w4 := Next(Next(w2, s[2]), s[3]);
    assert Run(w2, s[2..]) == Run(Next(w2, s[2]), s[3..]) == Run(w4, s[4..]);
    assert Run(w4, s[4..]) == Run(Next(w4, s[4]), []);
  }

  /** Presenting and retrying the only order abandons the record and is otherwise undone. */
  lemma FailedThenRetried(w: World, first: Payload)
    requires |w.orders| == 1 && w.orders[0].status.Pending? && w.orders[0].payload == EMPTY_PAYLOAD
    requires w.orders[0].presented.None? && !w.orders[0].cleaned && ChallengeFromPayload(w.orders[0].zone, first).Some?
    ensures var r := RecordOf(ChallengeFromPayload(w.orders[0].zone, first).value);
      Next(Next(w, Present(0, first, AcknowledgeFailed)), Requeue(0, true))
      == World(w.orders, w.records + multiset{r}, w.abandoned + multiset{r})
  {
    var r := RecordOf(ChallengeFromPayload(w.orders[0].zone, first).value);
    var failed := Next(w, Present(0, first, AcknowledgeFailed));
    assert failed.orders[0] == w.orders[0].(status := DnsFailed, presented := Some(r));
    assert PutBack(failed.orders[0]) == w.orders[0];
    assert failed.orders[0 := w.orders[0]] == w.orders;
  }

  /** Presenting and finalizing the only order without a fault leaves the records as they were. */
  lemma PresentedThenIssued(w: World, second: Payload)
    requires |w.orders| == 1 && w.orders[0].status.Pending? && w.orders[0].payload == EMPTY_PAYLOAD && !w.orders[0].warned
    requires ChallengeFromPayload(w.orders[0].zone, second).Some?
    ensures var w' := Next(Next(w, Present(0, second, PresentedOk)), Finalize(0, CleanupOk));
      |w'.orders| == 1 && AllIssuedCleanly(w'.orders) && w'.records == w.records
  {
    var o := w.orders[0];
    NewPayloadIsStored(o, w.records, second);
    OrderIssued(o, w.records, second);
  }

  lemma OrderIssued(o: Order, records: multiset<TxtRecord>, second: Payload)
    requires o.status.Pending? && o.payload == EMPTY_PAYLOAD && !o.warned && ChallengeFromPayload(o.zone, second).Some?
    ensures var (p, presented) := PresentOrder(o, records, second, PresentedOk);
      var (f, left) := FinalizeOrder(p, presented, CleanupOk);
      p.status.Presented? && f.status.Issued? && !f.warned && left == records
  {
    NewPayloadIsStored(o, records, second);
    var r := RecordOf(ChallengeFromPayload(o.zone, second).value);
    assert records + multiset{r} - multiset{r} == records;
  }

  /** A retried order that is then issued without a warning leaves the record of its first attempt behind. */
  lemma RetryLeavesRecord(foreign: multiset<TxtRecord>, zone: Zone, first: Payload, second: Payload)
    requires ChallengeFromPayload(zone, first).Some? && ChallengeFromPayload(zone, second).Some?
    ensures var steps := [Submit(zone, EMPTY_PAYLOAD), Present(0, first, AcknowledgeFailed), Requeue(0, true),
                          Present(0, second, PresentedOk), Finalize(0, CleanupOk)];
      var w := Run(Start(foreign), steps);
      AllIssuedCleanly(w.orders) && |w.orders| == 1
      && w.records == foreign + multiset{RecordOf(ChallengeFromPayload(zone, first).value)}
  {
    var steps := [Submit(zone, EMPTY_PAYLOAD), Present(0, first, AcknowledgeFailed), Requeue(0, true),
                  Present(0, second, PresentedOk), Finalize(0, CleanupOk)];
    RunFive(Start(foreign), steps);
    var w1 := Next(Start(foreign), steps[0]);
    FailedThenRetried(w1, first);
    PresentedThenIssued(Next(Next(w1, steps[1]), steps[2]), second);
  }

  // ---------------------------------------------------------------- outcomes spelled out

  /** A payload gives a challenge exactly when its record type is TXT or missing and name and value are there. */
  lemma ChallengeIff(zone: Zone, p: Payload)
    ensures ChallengeFromPayload(zone, p).Some? <==>
      && (p.recordType.Some? ==> Upper(p.recordType.value) == "TXT")
      && p.recordName.Some? && Trim(p.recordName.value) != []
      && p.recordValue.Some? && Trim(p.recordValue.value) != []
    ensures ChallengeFromPayload(zone, p).Some? ==>
      var c := ChallengeFromPayload(zone, p).value;
      && c.zoneId == zone.externalId && c.fqdn == p.recordName.value && c.value == p.recordValue.value
      && (p.zoneName.None? ==> c.zoneName == zone.zoneName) && (p.zoneName.Some? ==> c.zoneName == p.zoneName.value)
      && (p.ttl.None? ==> c.ttl == 60) && (p.ttl.Some? ==> c.ttl == p.ttl.value)
  {
    assert Upper("TXT") == "TXT";
  }

  /** An order whose stored payload is complete is presented with that payload, not with a new one. */
  lemma CompletePayloadIsReused(o: Order, records: multiset<TxtRecord>, fromAcme: Payload)
    requires o.payload.recordName.Some? && o.payload.recordValue.Some? && o.payload.urls && ChallengeFromPayload(o.zone, o.payload).Some?
    ensures PresentOrder(o, records, fromAcme, PresentedOk).0.presented == Some(RecordOf(ChallengeFromPayload(o.zone, o.payload).value))
    ensures PresentOrder(o, records, fromAcme, PresentedOk).0.payload == o.payload
  {
  }

  /** An incomplete one with what the ACME server answers, which is then stored. */
  lemma NewPayloadIsStored(o: Order, records: multiset<TxtRecord>, fromAcme: Payload)
    requires o.payload.recordName.None? || o.payload.recordValue.None? || !o.payload.urls
    requires ChallengeFromPayload(o.zone, fromAcme).Some?
    ensures PresentOrder(o, records, fromAcme, PresentedOk).0.presented == Some(RecordOf(ChallengeFromPayload(o.zone, fromAcme).value))
    ensures PresentOrder(o, records, fromAcme, PresentedOk).0.payload == fromAcme
  {
  }

  /** Where presenting an order that gives a challenge leaves it, and when the record is there. */
  lemma PresentLeaves(o: Order, records: multiset<TxtRecord>, fromAcme: Payload, outcome: PresentOutcome)
    requires o.presented.None? && ChallengeFromPayload(o.zone, Prepared(o, fromAcme)).Some?
    ensures var (o', records') := PresentOrder(o, records, fromAcme, outcome);
      && (o'.status == Presented <==> outcome == PresentedOk)
      && (o'.status == Presenting <==> outcome == CrashedBeforeCreate || outcome == CrashedAfterCreate || outcome == StatusUpdateFailed)
      && (o'.status == DnsFailed <==>
            outcome == PrepareFailed || outcome == CreateRefused || outcome == CreatedButReportedFailed || outcome == AcknowledgeFailed)
      && (o'.presented.None? <==> outcome == PrepareFailed || outcome == CreateRefused || outcome == CrashedBeforeCreate)
      && records' == (if o'.presented.None? then records else records + multiset{o'.presented.value})
  {
  }

  /** Where finalizing a presented order leaves it, and when the record is gone. */
  lemma FinalizeLeaves(o: Order, records: multiset<TxtRecord>, outcome: FinalizeOutcome)
    requires Consistent(o) && o.status.Presented? && !o.warned
    ensures var (o', records') := FinalizeOrder(o, records, outcome);
      && (o'.status == IssueFailed <==> outcome == AcmeFailed)
      && (o'.status == Issued <==> outcome == CleanupOk || outcome == CleanupFailed || outcome == CleanedButReportedFailed)
      && (o'.status == Issuing <==> outcome == CrashedBeforeCleanup || outcome == CrashedAfterCleanup)
      && (o'.warned <==> outcome == CleanupFailed || outcome == CleanedButReportedFailed)
      && (o'.cleaned <==> outcome == CleanupOk || outcome == CleanedButReportedFailed || outcome == CrashedAfterCleanup)
      && records' == (if o'.cleaned then records - multiset{o.presented.value} else records)
  {
  }

  /** A retry is accepted for failed orders only, a reset for every order that is not issued; both empty the payload. */
  lemma RequeueAcceptedIff(w: World, i: nat, retry: bool)
    requires i < |w.orders|
    ensures var o, w' := w.orders[i], Next(w, Requeue(i, retry));
      if (retry && (o.status == DnsFailed || o.status == IssueFailed)) || (!retry && o.status != Issued)
      then |w'.orders| == |w.orders| && w'.orders[i].status == Pending && w'.orders[i].payload == EMPTY_PAYLOAD
           && w'.orders[i].zone == o.zone && w'.records == w.records
           && forall j :: 0 <= j < |w.orders| && j != i ==> w'.orders[j] == w.orders[j]
      else w' == w
  {
  }
}
