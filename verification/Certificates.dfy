/**
 * Certificate orders, certificate versions and the certificate each site uses by default.
 *
 * The hub, one DNS worker and the database act in atomic steps.  A step that the code or a
 * database constraint refuses leaves the store unchanged.  `owner` and `everSites` are history: the site
 * a certificate was ordered for, and every site that ever existed.
 */
module Certificates {
  import opened Common
  import opened CertificateOrders

  datatype OrderType = Issue | Renew

  datatype Order = Order(site: Option<Uuid>, cert: Uuid, orderType: OrderType, status: OrderStatus)

  /** An order claimed for issuance, as the worker holds it while it talks to the ACME server. */
  datatype Job = Job(order: Uuid, site: Option<Uuid>, cert: Uuid, orderType: OrderType)

  datatype VersionRow = VersionRow(cert: Uuid, version: nat)

  datatype CertBinding = CertBinding(site: Uuid, cert: Uuid, version: nat, isDefault: bool)

  datatype Store = Store(
    sites: set<Uuid>,
    active: set<Uuid>,                 // certificates with status 'active'
    versions: seq<VersionRow>,
    bindings: seq<CertBinding>,
    orders: map<Uuid, Order>,
    jobs: set<Job>,
    owner: map<Uuid, Option<Uuid>>,
    everSites: set<Uuid>)

  // ---------------------------------------------------------------- queries

  /** The versions stored for a certificate, oldest row first. */
  function VersionsOf(rows: seq<VersionRow>, cert: Uuid): seq<nat> {
    if rows == [] then []
    else
      var last := rows[|rows| - 1];
      VersionsOf(rows[..|rows| - 1], cert) + (if last.cert == cert then [last.version] else [])
  }

  function MaxVersion(rows: seq<VersionRow>, cert: Uuid): nat {
    if rows == [] then 0
    else
      var last := rows[|rows| - 1];
      var m := MaxVersion(rows[..|rows| - 1], cert);
      if last.cert == cert && m < last.version then last.version else m
  }

  /** 1, 2, .., k */
  function UpTo(k: nat): seq<nat> {
    seq(k, i => i + 1)
  }

  /** The certificate of the site's default binding, newest row first. */
  function DefaultCert(bs: seq<CertBinding>, site: Uuid): (r: Option<Uuid>)
    ensures r.Some? ==> exists b :: b in bs && b.site == site && b.isDefault && b.cert == r.value
    ensures r.None? ==> forall b :: b in bs ==> !(b.site == site && b.isDefault)
  {
    if bs == [] then None
    else if bs[|bs| - 1].site == site && bs[|bs| - 1].isDefault then Some(bs[|bs| - 1].cert)
    else DefaultCert(bs[..|bs| - 1], site)
  }

  /** Distinct sites whose default binding is this certificate. */
  function DefaultSites(bs: seq<CertBinding>, cert: Uuid): (r: seq<Uuid>)
    ensures forall s :: s in r <==> exists b :: b in bs && b.site == s && b.cert == cert && b.isDefault
  {
    if bs == [] then []
    else
      var rest := DefaultSites(bs[1..], cert);
      if bs[0].cert == cert && bs[0].isDefault && bs[0].site !in rest then [bs[0].site] + rest else rest
  }

  predicate ActiveStatus(s: OrderStatus) {
    s.Pending? || s.Presenting? || s.Presented? || s.Issuing?
  }

  predicate ActiveRenewal(o: Order, cert: Uuid) {
    o.cert == cert && o.orderType.Renew? && ActiveStatus(o.status)
  }

  /** The partial unique index on active renewals. */
  ghost predicate OneActiveRenewal(orders: map<Uuid, Order>) {
    forall a, b, c :: a in orders && b in orders && ActiveRenewal(orders[a], c) && ActiveRenewal(orders[b], c) ==> a == b
  }

  // ---------------------------------------------------------------- persisting an issued certificate

  function ClearDefaults(bs: seq<CertBinding>, site: Uuid): (r: seq<CertBinding>)
    ensures |r| == |bs|
    ensures forall i :: 0 <= i < |bs| ==> r[i] == if bs[i].site == site then bs[i].(isDefault := false) else bs[i]
  {
    if bs == [] then []
    else [if bs[0].site == site then bs[0].(isDefault := false) else bs[0]] + ClearDefaults(bs[1..], site)
  }

  /** Each target site gets the new version as its only default binding. */
  function BindAll(bs: seq<CertBinding>, targets: seq<Uuid>, cert: Uuid, version: nat): seq<CertBinding>
    decreases |targets|
  {
    if targets == [] then bs
    else BindAll(ClearDefaults(bs, targets[0]) + [CertBinding(targets[0], cert, version, true)], targets[1..], cert, version)
  }

  function TargetSites(bs: seq<CertBinding>, job: Job): seq<Uuid> {
    match job.site
    case Some(s) => [s]
    case None => if job.orderType.Renew? then DefaultSites(bs, job.cert) else []
  }

  /** The loop of the persist transaction over its target sites. */
  method BindTargets(bs: seq<CertBinding>, targets: seq<Uuid>, cert: Uuid, version: nat) returns (r: seq<CertBinding>)
    ensures r == BindAll(bs, targets, cert, version)
  {
    r := bs;
    for i := 0 to |targets|
      invariant BindAll(r, targets[i..], cert, version) == BindAll(bs, targets, cert, version)
    {
      assert targets[i..][1..] == targets[i + 1..];
      r := ClearDefaults(r, targets[i]);
      r := r + [CertBinding(targets[i], cert, version, true)];
    }
    assert targets[|targets|..] == [];
  }

  /** `persist_issued_certificate`; a target site deleted meanwhile makes the insert fail and rolls everything back. */
  function Persist(st: Store, job: Job): Option<Store> {
    if job.site.Some? && job.site.value !in st.sites then None
    else
      var version := MaxVersion(st.versions, job.cert) + 1;
      Some(st.(
        active := st.active + {job.cert},
        versions := st.versions + [VersionRow(job.cert, version)],
        bindings := BindAll(st.bindings, TargetSites(st.bindings, job), job.cert, version),
        orders := if job.order in st.orders then st.orders[job.order := st.orders[job.order].(status := Issued)] else st.orders))
  }

  // ---------------------------------------------------------------- invariant

  ghost predicate VersionsDense(rows: seq<VersionRow>) {
    forall c :: VersionsOf(rows, c) == UpTo(|VersionsOf(rows, c)|)
  }

  predicate AtMostOneDefault(bs: seq<CertBinding>) {
    forall i, j :: 0 <= i < j < |bs| && bs[i].site == bs[j].site ==> !(bs[i].isDefault && bs[j].isDefault)
  }

  /** Every default binding carries the newest stored version of its certificate. */
  ghost predicate DefaultsNewest(st: Store) {
    forall b :: b in st.bindings && b.isDefault ==> b.version == |VersionsOf(st.versions, b.cert)|
  }

  /** A certificate ordered for a site is used by that site only, and only while it exists. */
  ghost predicate Owned(st: Store) {
    && st.sites <= st.everSites
    && (forall c :: c in st.owner && st.owner[c].Some? ==> st.owner[c].value in st.everSites)
    && (forall b :: b in st.bindings ==> b.cert in st.owner && st.owner[b.cert] == Some(b.site) && b.site in st.sites)
    && (forall o :: o in st.orders ==> OwnedBy(st, st.orders[o].site, st.orders[o].cert, st.orders[o].orderType))
    && (forall j :: j in st.jobs ==> OwnedBy(st, j.site, j.cert, j.orderType))
  }

  ghost predicate OwnedBy(st: Store, site: Option<Uuid>, cert: Uuid, orderType: OrderType) {
    && cert in st.owner
    && (site.Some? ==> st.owner[cert] == site)
    && (site.None? && orderType.Issue? ==> st.owner[cert].None? || st.owner[cert].value !in st.sites)
  }

  ghost predicate Inv(st: Store) {
    && VersionsDense(st.versions)
    && AtMostOneDefault(st.bindings)
    && DefaultsNewest(st)
    && Owned(st)
    && OneActiveRenewal(st.orders)
  }

  // ---------------------------------------------------------------- steps

  datatype Step =
    | AddSite(site: Uuid)
    | DeleteSite(site: Uuid)
    | CreateOrder(order: Uuid, cert: Uuid, forSite: Option<Uuid>)
    | RenewSite(order: Uuid, cert: Uuid, site: Uuid)    // `cert` is used only if the site has none
    | AutoRenew(order: Uuid, cert: Uuid)
    | Requeue(order: Uuid)                              // retry or reset
    | SetStatus(order: Uuid, status: OrderStatus)            // the worker's unconditional status updates
    | Claim(order: Uuid)                                // for issuance
    | PersistJob(job: Job)
    | DropJob(job: Job)                                 // the worker crashed or the ACME order failed

  function DetachOrders(orders: map<Uuid, Order>, site: Uuid): map<Uuid, Order> {
    map o | o in orders :: if orders[o].site == Some(site) then orders[o].(site := None) else orders[o]
  }

  function KeepOtherSites(bs: seq<CertBinding>, site: Uuid): (r: seq<CertBinding>)
    ensures forall b :: b in r <==> b in bs && b.site != site
  {
    if bs == [] then [] else (if bs[0].site == site then [] else [bs[0]]) + KeepOtherSites(bs[1..], site)
  }

  /** The hub's check before a site renewal: some order of the site or of its certificate is not finished. */
  ghost predicate HasUnfinishedOrder(st: Store, site: Uuid, cert: Option<Uuid>) {
    exists o :: o in st.orders
      && (st.orders[o].site == Some(site) || cert == Some(st.orders[o].cert))
      && !(st.orders[o].status.Issued? || st.orders[o].status.DnsFailed? || st.orders[o].status.IssueFailed?)
  }

  /** Orders after one row changes, unless the unique index rejects it. */
  ghost function UpdateOrder(st: Store, order: Uuid, row: Order): Store {
    var orders := st.orders[order := row];
    if OneActiveRenewal(orders) then st.(orders := orders) else st
  }

  ghost function Next(st: Store, step: Step): Store {
    match step
    case AddSite(site) =>
      if site in st.everSites then st else st.(sites := st.sites + {site}, everSites := st.everSites + {site})
    case DeleteSite(site) =>
      st.(sites := st.sites - {site}, bindings := KeepOtherSites(st.bindings, site), orders := DetachOrders(st.orders, site))
    case CreateOrder(order, cert, site) =>
      if order in st.orders || cert in st.owner || (site.Some? && site.value !in st.sites) then st
      else st.(owner := st.owner[cert := site], orders := st.orders[order := Order(site, cert, Issue, Pending)])
    case RenewSite(order, cert, site) =>
      if site !in st.sites || order in st.orders || HasUnfinishedOrder(st, site, DefaultCert(st.bindings, site)) then st
      else
        (match DefaultCert(st.bindings, site)
         case Some(c) => UpdateOrder(st, order, Order(Some(site), c, Renew, Pending))
         case None =>
           if cert in st.owner then st
           else UpdateOrder(st.(owner := st.owner[cert := Some(site)]), order, Order(Some(site), cert, Renew, Pending)))
    case AutoRenew(order, cert) =>
      if cert !in st.active || cert !in st.owner || order in st.orders then st
      else UpdateOrder(st, order, Order(None, cert, Renew, Pending))
    case Requeue(order) =>
      if order !in st.orders || st.orders[order].status.Issued? then st
      else UpdateOrder(st, order, st.orders[order].(status := Pending))
    case SetStatus(order, status) =>
      if order !in st.orders || status.Issued? then st
      else UpdateOrder(st, order, st.orders[order].(status := status))
    case Claim(order) =>
      if order !in st.orders || !st.orders[order].status.Presented? then st
      else
        var o := st.orders[order];
        st.(orders := st.orders[order := o.(status := Issuing)], jobs := st.jobs + {Job(order, o.site, o.cert, o.orderType)})
    case PersistJob(job) =>
      if job !in st.jobs then st
      else
        (match Persist(st, job)
         case None => st.(jobs := st.jobs - {job})
         case Some(after) => after.(jobs := st.jobs - {job}))
    case DropJob(job) => st.(jobs := st.jobs - {job})
  }

  ghost function Run(st: Store, steps: seq<Step>): Store
    decreases |steps|
  {
    if steps == [] then st else Run(Next(st, steps[0]), steps[1..])
  }

  // ---------------------------------------------------------------- versions

  lemma VersionsAppend(rows: seq<VersionRow>, row: VersionRow, c: Uuid)
    ensures VersionsOf(rows + [row], c) == VersionsOf(rows, c) + (if row.cert == c then [row.version] else [])
  {
    assert (rows + [row])[..|rows|] == rows;
  }

  lemma {:induction false} MaxIsMaximum(rows: seq<VersionRow>, c: Uuid)
    ensures forall i :: 0 <= i < |VersionsOf(rows, c)| ==> VersionsOf(rows, c)[i] <= MaxVersion(rows, c)
    ensures MaxVersion(rows, c) == 0 || MaxVersion(rows, c) in VersionsOf(rows, c)
  {
    if rows != [] {
      MaxIsMaximum(rows[..|rows| - 1], c);
    }
  }

  /** In a dense history the next version is one more than the number of stored versions. */
  lemma NextVersionIsCount(rows: seq<VersionRow>, c: Uuid)
    requires VersionsDense(rows)
    ensures MaxVersion(rows, c) == |VersionsOf(rows, c)|
  {
    MaxIsMaximum(rows, c);
    var vs := VersionsOf(rows, c);
    assert vs == UpTo(|vs|);
    if vs != [] {
      assert vs[|vs| - 1] == |vs|;
    }
  }

  lemma NextVersionKeepsDense(rows: seq<VersionRow>, c: Uuid)
    requires VersionsDense(rows)
    ensures VersionsDense(rows + [VersionRow(c, MaxVersion(rows, c) + 1)])
  {
    NextVersionIsCount(rows, c);
    var row := VersionRow(c, MaxVersion(rows, c) + 1);
    forall d ensures VersionsOf(rows + [row], d) == UpTo(|VersionsOf(rows + [row], d)|) {
      VersionsAppend(rows, row, d);
      assert VersionsOf(rows, d) == UpTo(|VersionsOf(rows, d)|);
    }
  }

  // ---------------------------------------------------------------- default bindings

  lemma {:induction false} BindAllOneDefault(bs: seq<CertBinding>, targets: seq<Uuid>, cert: Uuid, version: nat)
    requires AtMostOneDefault(bs)
    ensures AtMostOneDefault(BindAll(bs, targets, cert, version))
    decreases |targets|
  {
    if targets != [] {
      BindAllOneDefault(ClearDefaults(bs, targets[0]) + [CertBinding(targets[0], cert, version, true)], targets[1..], cert, version);
    }
  }

  /** Where a binding comes from: it is one of the new ones, or it was there and keeps its default only off the targets. */
  lemma {:induction false} BindAllMember(bs: seq<CertBinding>, targets: seq<Uuid>, cert: Uuid, version: nat, b: CertBinding)
    requires b in BindAll(bs, targets, cert, version)
    ensures (b.cert == cert && b.version == version && b.site in targets)
         || ((b in bs || b.(isDefault := true) in bs) && (b.isDefault ==> b in bs && b.site !in targets))
    decreases |targets|
  {
    if targets != [] {
      var cleared := ClearDefaults(bs, targets[0]);
      BindAllMember(cleared + [CertBinding(targets[0], cert, version, true)], targets[1..], cert, version, b);
      forall x | x in cleared ensures (x in bs || x.(isDefault := true) in bs) && (x.isDefault ==> x in bs && x.site != targets[0]) {
        var i :| 0 <= i < |cleared| && cleared[i] == x;
        assert bs[i] in bs;
        assert x.(isDefault := true) == bs[i].(isDefault := true);
      }
      assert forall x :: x in cleared ==> x == x.(isDefault := true) || x == x.(isDefault := false);
    }
  }

  lemma {:induction false} BindAllBinds(bs: seq<CertBinding>, targets: seq<Uuid>, cert: Uuid, version: nat, s: Uuid)
    requires s in targets || CertBinding(s, cert, version, true) in bs
    ensures CertBinding(s, cert, version, true) in BindAll(bs, targets, cert, version)
    decreases |targets|
  {
    if targets != [] {
      var b := CertBinding(s, cert, version, true);
      var cleared := ClearDefaults(bs, targets[0]);
      if s != targets[0] && b in bs {
        var i :| 0 <= i < |bs| && bs[i] == b;
        assert cleared[i] == b;
      }
      BindAllBinds(cleared + [CertBinding(targets[0], cert, version, true)], targets[1..], cert, version, s);
    }
  }

  /** Persisting a job rebinds every site that uses the certificate by default. */
  lemma TargetsCoverDefaults(st: Store, job: Job, b: CertBinding)
    requires Owned(st) && OwnedBy(st, job.site, job.cert, job.orderType)
    requires b in st.bindings && b.isDefault && b.cert == job.cert
    ensures b.site in TargetSites(st.bindings, job)
  {
  }

  /** What persisting a job does to one binding of the new store. */
  lemma PersistBinding(st: Store, job: Job, b: CertBinding)
    requires Inv(st) && job in st.jobs && Persist(st, job).Some? && b in Persist(st, job).value.bindings
    ensures b.cert in st.owner && st.owner[b.cert] == Some(b.site) && b.site in st.sites
    ensures b.isDefault ==> b.version == |VersionsOf(Persist(st, job).value.versions, b.cert)|
  {
    var version := MaxVersion(st.versions, job.cert) + 1;
    NextVersionIsCount(st.versions, job.cert);
    BindAllMember(st.bindings, TargetSites(st.bindings, job), job.cert, version, b);
    VersionsAppend(st.versions, VersionRow(job.cert, version), b.cert);
    if b in st.bindings && b.isDefault && b.cert == job.cert {
      TargetsCoverDefaults(st, job, b);
    }
  }

  lemma PersistOrders(st: Store, job: Job)
    requires Inv(st) && Persist(st, job).Some?
    ensures OneActiveRenewal(Persist(st, job).value.orders)
  {
    var after := Persist(st, job).value;
    assert forall o, c :: o in after.orders && ActiveRenewal(after.orders[o], c) ==> ActiveRenewal(st.orders[o], c);
  }

  lemma PersistKeepsInv(st: Store, job: Job)
    requires Inv(st) && job in st.jobs && Persist(st, job).Some?
    ensures Inv(Persist(st, job).value)
  {
    var after := Persist(st, job).value;
    NextVersionKeepsDense(st.versions, job.cert);
    BindAllOneDefault(st.bindings, TargetSites(st.bindings, job), job.cert, MaxVersion(st.versions, job.cert) + 1);
    forall b | b in after.bindings
      ensures b.cert in st.owner && st.owner[b.cert] == Some(b.site) && b.site in st.sites
      ensures b.isDefault ==> b.version == |VersionsOf(after.versions, b.cert)|
    {
      PersistBinding(st, job, b);
    }
    PersistOrders(st, job);
  }

  /** With at most one default per site, a default binding is the default binding of its site. */
  lemma DefaultIsSole(bs: seq<CertBinding>, b: CertBinding, x: CertBinding)
    requires AtMostOneDefault(bs) && b in bs && b.isDefault && x in bs && x.isDefault && x.site == b.site
    ensures x == b
  {
    var i :| 0 <= i < |bs| && bs[i] == b;
    var j :| 0 <= j < |bs| && bs[j] == x;
    assert i == j || i < j || j < i;
  }

  /**
   * After a job for a live site is persisted, that site's one default binding is the version just stored, the
   * certificate is active, and of all orders only this one became issued.
   */
  lemma PersistedIsDefault(st: Store, job: Job)
    requires Inv(st) && job in st.jobs && Persist(st, job).Some? && job.site.Some?
    ensures var after := Persist(st, job).value;
      var b := CertBinding(job.site.value, job.cert, |VersionsOf(st.versions, job.cert)| + 1, true);
      && b in after.bindings
      && (forall x :: x in after.bindings && x.site == job.site.value && x.isDefault ==> x == b)
      && VersionsOf(after.versions, job.cert) == VersionsOf(st.versions, job.cert) + [b.version]
      && job.cert in after.active
      && after.orders.Keys == st.orders.Keys
      && forall o :: o in st.orders ==>
           after.orders[o] == if o == job.order then st.orders[o].(status := Issued) else st.orders[o]
  {
    var after := Persist(st, job).value;
    var version := MaxVersion(st.versions, job.cert) + 1;
    VersionsAppend(st.versions, VersionRow(job.cert, version), job.cert);
    NextVersionIsCount(st.versions, job.cert);
    var b := CertBinding(job.site.value, job.cert, version, true);
    BindAllBinds(st.bindings, [job.site.value], job.cert, version, job.site.value);
    BindAllOneDefault(st.bindings, [job.site.value], job.cert, version);
    forall x | x in after.bindings && x.site == b.site && x.isDefault ensures x == b {
      DefaultIsSole(after.bindings, b, x);
    }
  }

  // ---------------------------------------------------------------- every step

  lemma {:induction false} KeepOtherSitesOneDefault(bs: seq<CertBinding>, site: Uuid)
    requires AtMostOneDefault(bs)
    ensures AtMostOneDefault(KeepOtherSites(bs, site))
  {
    if bs != [] {
      KeepOtherSitesOneDefault(bs[1..], site);
      var tail := KeepOtherSites(bs[1..], site);
      forall j | 0 <= j < |tail| ensures !(tail[j].site == bs[0].site && bs[0].isDefault && tail[j].isDefault) {
        assert tail[j] in bs[1..];
      }
    }
  }

  lemma DeleteSiteKeepsInv(st: Store, site: Uuid)
    requires Inv(st)
    ensures Inv(Next(st, DeleteSite(site)))
  {
    var after := Next(st, DeleteSite(site));
    KeepOtherSitesOneDefault(st.bindings, site);
    assert OneActiveRenewal(after.orders) by {
      assert forall o, c :: o in after.orders && ActiveRenewal(after.orders[o], c) ==> ActiveRenewal(st.orders[o], c);
    }
    forall o | o in after.orders
      ensures OwnedBy(after, after.orders[o].site, after.orders[o].cert, after.orders[o].orderType)
    {
      assert OwnedBy(st, st.orders[o].site, st.orders[o].cert, st.orders[o].orderType);
    }
  }

  /** Adding or changing one order row keeps the invariant if the row respects ownership. */
  lemma UpdateOrderKeepsInv(st: Store, order: Uuid, row: Order)
    requires Inv(st) && OwnedBy(st, row.site, row.cert, row.orderType)
    ensures Inv(UpdateOrder(st, order, row))
  {
  }

  lemma NewOwnerKeepsInv(st: Store, cert: Uuid, site: Option<Uuid>)
    requires Inv(st) && cert !in st.owner && (site.Some? ==> site.value in st.sites)
    ensures Inv(st.(owner := st.owner[cert := site]))
  {
    var after := st.(owner := st.owner[cert := site]);
    assert forall s, c, t :: OwnedBy(st, s, c, t) ==> OwnedBy(after, s, c, t);
  }

  lemma AddSiteKeepsInv(st: Store, site: Uuid)
    requires Inv(st)
    ensures Inv(Next(st, AddSite(site)))
  {
    var after := Next(st, AddSite(site));
    assert forall s, c, t :: OwnedBy(st, s, c, t) ==> OwnedBy(after, s, c, t);
  }

  lemma RenewSiteKeepsInv(st: Store, order: Uuid, cert: Uuid, site: Uuid)
    requires Inv(st)
    ensures Inv(Next(st, RenewSite(order, cert, site)))
  {
    if site in st.sites && order !in st.orders && !HasUnfinishedOrder(st, site, DefaultCert(st.bindings, site)) {
      match DefaultCert(st.bindings, site)
      case Some(c) =>
        UpdateOrderKeepsInv(st, order, Order(Some(site), c, Renew, Pending));
      case None =>
        if cert !in st.owner {
          NewOwnerKeepsInv(st, cert, Some(site));
          UpdateOrderKeepsInv(st.(owner := st.owner[cert := Some(site)]), order, Order(Some(site), cert, Renew, Pending));
        }
    }
  }

  lemma CreateOrderKeepsInv(st: Store, order: Uuid, cert: Uuid, site: Option<Uuid>)
    requires Inv(st)
    ensures Inv(Next(st, CreateOrder(order, cert, site)))
  {
    if !(order in st.orders || cert in st.owner || (site.Some? && site.value !in st.sites)) {
      NewOwnerKeepsInv(st, cert, site);
      var mid := st.(owner := st.owner[cert := site]);
      UpdateOrderKeepsInv(mid, order, Order(site, cert, Issue, Pending));
      assert OneActiveRenewal(st.orders[order := Order(site, cert, Issue, Pending)]);
    }
  }

  lemma ClaimKeepsInv(st: Store, order: Uuid)
    requires Inv(st)
    ensures Inv(Next(st, Claim(order)))
  {
    if order in st.orders && st.orders[order].status.Presented? {
      var o := st.orders[order];
      assert OwnedBy(st, o.site, o.cert, o.orderType);
      var orders := st.orders[order := o.(status := Issuing)];
      assert forall x, c :: x in orders && ActiveRenewal(orders[x], c) ==> ActiveRenewal(st.orders[x], c);
      assert OneActiveRenewal(orders);
      UpdateOrderKeepsInv(st, order, o.(status := Issuing));
    }
  }

  lemma StepKeepsInv(st: Store, step: Step)
    requires Inv(st)
    ensures Inv(Next(st, step))
  {
    match step
    case AddSite(site) => AddSiteKeepsInv(st, site);
    case DeleteSite(site) => DeleteSiteKeepsInv(st, site);
    case CreateOrder(order, cert, site) => CreateOrderKeepsInv(st, order, cert, site);
    case RenewSite(order, cert, site) => RenewSiteKeepsInv(st, order, cert, site);
    case AutoRenew(order, cert) =>
      if cert in st.owner {
        UpdateOrderKeepsInv(st, order, Order(None, cert, Renew, Pending));
      }
    case Requeue(order) =>
      if order in st.orders {
        UpdateOrderKeepsInv(st, order, st.orders[order].(status := Pending));
      }
    case SetStatus(order, status) =>
      if order in st.orders {
        UpdateOrderKeepsInv(st, order, st.orders[order].(status := status));
      }
    case Claim(order) => ClaimKeepsInv(st, order);
    case PersistJob(job) =>
      if job in st.jobs && Persist(st, job).Some? {
        PersistKeepsInv(st, job);
      }
    case DropJob(job) =>
  }

  /**
   * Main theorem: in every run of orders, renewals, retries, site deletions, worker claims, crashes and
   * persists, each certificate's versions are exactly 1..k, each site has at most one default binding,
   * and a default binding carries the newest version of its certificate.
   */
  lemma {:induction false} RunKeepsInv(st: Store, steps: seq<Step>)
    requires Inv(st)
    ensures Inv(Run(st, steps))
    decreases |steps|
  {
    if steps != [] {
      StepKeepsInv(st, steps[0]);
      RunKeepsInv(Next(st, steps[0]), steps[1..]);
    }
  }

  function Empty(): Store {
    Store({}, {}, [], [], map[], {}, map[], {})
  }

  lemma EveryReachableStore(steps: seq<Step>)
    ensures var st := Run(Empty(), steps);
      VersionsDense(st.versions) && AtMostOneDefault(st.bindings) && DefaultsNewest(st)
  {
    RunKeepsInv(Empty(), steps);
  }

  /** A site renewal that passes the hub's own check never meets the unique index. */
  lemma SiteRenewalMeetsNoConflict(st: Store, order: Uuid, site: Uuid, cert: Uuid)
    requires Inv(st) && order !in st.orders && DefaultCert(st.bindings, site) == Some(cert)
    requires !HasUnfinishedOrder(st, site, Some(cert))
    ensures OneActiveRenewal(st.orders[order := Order(Some(site), cert, Renew, Pending)])
  {
  }

  // ---------------------------------------------------------------- what each step does

  predicate Unfinished(status: OrderStatus) {
    !status.Issued? && !status.DnsFailed? && !status.IssueFailed?
  }

  /** In every reachable store a certificate has at most one renewal that is not finished. */
  lemma OneUnfinishedRenewal(steps: seq<Step>, a: Uuid, b: Uuid)
    requires var orders := Run(Empty(), steps).orders;
      && a in orders && b in orders && orders[a].cert == orders[b].cert
      && orders[a].orderType.Renew? && orders[b].orderType.Renew? && Unfinished(orders[a].status) && Unfinished(orders[b].status)
    ensures a == b
  {
    RunKeepsInv(Empty(), steps);
    var orders := Run(Empty(), steps).orders;
    assert ActiveRenewal(orders[a], orders[a].cert) && ActiveRenewal(orders[b], orders[a].cert);
  }

  /** Some other renewal of the certificate is not finished. */
  ghost predicate RenewalUnderWay(orders: map<Uuid, Order>, order: Uuid, cert: Uuid) {
    exists o :: o in orders && o != order && orders[o].cert == cert && orders[o].orderType.Renew? && Unfinished(orders[o].status)
  }

  /** A changed or new order is refused exactly when it would be a second unfinished renewal of its certificate. */
  lemma UpdateRefusedIff(st: Store, order: Uuid, row: Order)
    requires OneActiveRenewal(st.orders)
    ensures UpdateOrder(st, order, row)
         == if row.orderType.Renew? && Unfinished(row.status) && RenewalUnderWay(st.orders, order, row.cert) then st
            else st.(orders := st.orders[order := row])
  {
    var orders := st.orders[order := row];
    assert orders[order] == row;
    if row.orderType.Renew? && Unfinished(row.status) && RenewalUnderWay(st.orders, order, row.cert) {
      var o :| o in st.orders && o != order && st.orders[o].cert == row.cert && st.orders[o].orderType.Renew? && Unfinished(st.orders[o].status);
      assert orders[o] == st.orders[o] && ActiveRenewal(orders[o], row.cert) && ActiveRenewal(orders[order], row.cert);
    } else {
      forall a, b, c | a in orders && b in orders && ActiveRenewal(orders[a], c) && ActiveRenewal(orders[b], c) ensures a == b {
        if a != order && b != order {
          assert ActiveRenewal(st.orders[a], c) && ActiveRenewal(st.orders[b], c);
        }
      }
    }
  }

  /** An order of the site, or of its certificate, that is not finished. */
  ghost predicate SiteBusy(st: Store, site: Uuid) {
    exists o :: o in st.orders && Unfinished(st.orders[o].status)
      && (st.orders[o].site == Some(site) || DefaultCert(st.bindings, site) == Some(st.orders[o].cert))
  }

  /** The certificate a renewal of the site orders: that of its default binding if there is one, else the new one. */
  ghost predicate RenewalCert(st: Store, site: Uuid, newCert: Uuid, cert: Uuid) {
    if exists b :: b in st.bindings && b.site == site && b.isDefault
    then exists b :: b in st.bindings && b.site == site && b.isDefault && b.cert == cert
    else cert == newCert
  }

  /**
   * A renewal of a live site, under a new order id: it is refused exactly when an order of the site or of its
   * certificate is not finished, or a new certificate is needed and not new; else it is a pending renewal for
   * the site, of the certificate its default binding names if there is one, and nothing else changes.
   */
  lemma RenewSiteOrders(st: Store, order: Uuid, newCert: Uuid, site: Uuid) returns (cert: Uuid)
    requires Inv(st) && site in st.sites && order !in st.orders
    ensures RenewalCert(st, site, newCert, cert)
    ensures var st' := Next(st, RenewSite(order, newCert, site));
      && (order in st'.orders <==> !SiteBusy(st, site) && (DefaultCert(st.bindings, site).Some? || newCert !in st.owner))
      && (order !in st'.orders ==> st' == st)
      && (order in st'.orders ==>
            st' == st.(orders := st.orders[order := Order(Some(site), cert, Renew, Pending)],
                       owner := if DefaultCert(st.bindings, site).Some? then st.owner else st.owner[newCert := Some(site)]))
  {
    var d := DefaultCert(st.bindings, site);
    cert := if d.Some? then d.value else newCert;
    assert HasUnfinishedOrder(st, site, d) <==> SiteBusy(st, site);
    if d.Some? {
      SoleDefaultCert(st.bindings, site);
      UpdateRefusedIff(st, order, Order(Some(site), cert, Renew, Pending));
    } else {
      var owned := st.(owner := st.owner[newCert := Some(site)]);
      UpdateRefusedIff(owned, order, Order(Some(site), newCert, Renew, Pending));
      if newCert !in st.owner {
        assert forall o :: o in st.orders ==> st.orders[o].cert != newCert;
      }
    }
  }

  lemma SoleDefaultCert(bs: seq<CertBinding>, site: Uuid)
    requires DefaultCert(bs, site).Some?
    ensures exists b :: b in bs && b.site == site && b.isDefault && b.cert == DefaultCert(bs, site).value
  {
  }

  /** A new order, for a live site or none, under new ids: pending, of the new certificate, owned by that site. */
  lemma CreateOrderOrders(st: Store, order: Uuid, cert: Uuid, site: Option<Uuid>)
    ensures var st' := Next(st, CreateOrder(order, cert, site));
      if order !in st.orders && cert !in st.owner && (site.Some? ==> site.value in st.sites)
      then st' == st.(orders := st.orders[order := Order(site, cert, Issue, Pending)], owner := st.owner[cert := site])
      else st' == st
  {
  }

  /** The worker orders a renewal, for no site in particular, exactly for an active certificate with none under way. */
  lemma AutoRenewOrders(st: Store, order: Uuid, cert: Uuid)
    requires Inv(st) && order !in st.orders && cert in st.owner
    ensures var st' := Next(st, AutoRenew(order, cert));
      if cert in st.active && !RenewalUnderWay(st.orders, order, cert)
      then st' == st.(orders := st.orders[order := Order(None, cert, Renew, Pending)])
      else st' == st
  {
    UpdateRefusedIff(st, order, Order(None, cert, Renew, Pending));
  }

  /** A retry or reset puts any order that is not issued back to pending, unless another renewal of it is under way. */
  lemma RequeuePutsBack(st: Store, order: Uuid)
    requires Inv(st) && order in st.orders
    ensures var st', o := Next(st, Requeue(order)), st.orders[order];
      if o.status.Issued? || (o.orderType.Renew? && RenewalUnderWay(st.orders, order, o.cert)) then st' == st
      else st' == st.(orders := st.orders[order := o.(status := Pending)])
  {
    UpdateRefusedIff(st, order, st.orders[order].(status := Pending));
  }

  /** The worker's status updates are unconditional, apart from the index; none of them says issued. */
  lemma SetStatusSets(st: Store, order: Uuid, status: OrderStatus)
    requires Inv(st) && order in st.orders
    ensures var st', o := Next(st, SetStatus(order, status)), st.orders[order];
      if status.Issued? || (o.orderType.Renew? && Unfinished(status) && RenewalUnderWay(st.orders, order, o.cert)) then st' == st
      else st' == st.(orders := st.orders[order := o.(status := status)])
  {
    UpdateRefusedIff(st, order, st.orders[order].(status := status));
  }

  /** A persist for a site that was deleted meanwhile changes nothing; the worker only drops the job. */
  lemma PersistForDeletedSite(st: Store, job: Job)
    requires job in st.jobs && job.site.Some? && job.site.value !in st.sites
    ensures Next(st, PersistJob(job)) == st.(jobs := st.jobs - {job})
  {
  }

  /** A new site, under an id never used before. */
  lemma AddSiteAdds(st: Store, site: Uuid)
    requires site !in st.everSites
    ensures Next(st, AddSite(site)) == st.(sites := st.sites + {site}, everSites := st.everSites + {site})
  {
  }

  /** Claiming a presented order hands the worker exactly what the order says, and marks it issuing. */
  lemma ClaimHandsOver(st: Store, order: Uuid)
    requires order in st.orders && st.orders[order].status.Presented?
    ensures var st', o := Next(st, Claim(order)), st.orders[order];
      st' == st.(orders := st.orders[order := o.(status := Issuing)], jobs := st.jobs + {Job(order, o.site, o.cert, o.orderType)})
  {
  }

  /** Deleting a site takes its bindings, and its orders lose the site; nothing else changes. */
  lemma DeleteSiteDetaches(st: Store, site: Uuid)
    ensures var st' := Next(st, DeleteSite(site));
      && st'.sites == st.sites - {site} && st'.versions == st.versions && st'.owner == st.owner && st'.jobs == st.jobs
      && (forall b :: b in st'.bindings <==> b in st.bindings && b.site != site)
      && st'.orders.Keys == st.orders.Keys
      && forall o :: o in st.orders ==>
           st'.orders[o] == if st.orders[o].site == Some(site) then st.orders[o].(site := None) else st.orders[o]
  {
  }

  /** The steps of a renewal without faults: ordered, presented, claimed, persisted. */
  function RenewalRun(order: Uuid, newCert: Uuid, site: Uuid, cert: Uuid): seq<Step> {
    [RenewSite(order, newCert, site), SetStatus(order, Presented), Claim(order), PersistJob(Job(order, Some(site), cert, Renew))]
  }

  lemma RunFour(st: Store, s: seq<Step>)
    requires |s| == 4
    ensures Run(st, s) == Next(Next(Next(Next(st, s[0]), s[1]), s[2]), s[3])
  {
    assert s[1..][1..] == s[2..] && s[2..][1..] == s[3..] && s[3..][1..] == [];
    var st2 := Next(Next(st, s[0]), s[1]);
    assert Run(st, s) == Run(Next(st, s[0]), s[1..]) == Run(st2, s[2..]);
    assert Run(st2, s[2..]) == Run(Next(st2, s[2]), s[3..]) == Run(Next(Next(st2, s[2]), s[3]), []);
  }

  /** From a pending order of a live site to the claimed job: only the status of the order changes. */
  lemma PresentAndClaim(st: Store, order: Uuid)
    requires Inv(st) && order in st.orders && st.orders[order].status.Pending?
    ensures var st', o := Next(Next(st, SetStatus(order, Presented)), Claim(order)), st.orders[order];
      && Inv(st')
      && st' == st.(orders := st.orders[order := o.(status := Issuing)], jobs := st.jobs + {Job(order, o.site, o.cert, o.orderType)})
  {
    var o := st.orders[order];
    UpdateRefusedIff(st, order, o.(status := Presented));
    if o.orderType.Renew? && RenewalUnderWay(st.orders, order, o.cert) {
      var x :| x in st.orders && x != order && st.orders[x].cert == o.cert && st.orders[x].orderType.Renew? && Unfinished(st.orders[x].status);
      assert ActiveRenewal(st.orders[x], o.cert) && ActiveRenewal(o, o.cert);
      assert false;
    }
    var presented := Next(st, SetStatus(order, Presented));
    assert presented == st.(orders := st.orders[order := o.(status := Presented)]);
    StepKeepsInv(st, SetStatus(order, Presented));
    StepKeepsInv(presented, Claim(order));
    assert st.orders[order := o.(status := Presented)][order := o.(status := Issuing)] == st.orders[order := o.(status := Issuing)];
  }

  /**
   * A renewal without faults stores one more version of the certificate the site uses, and makes it the
   * site's one default binding.
   */
  lemma RenewalAddsVersion(st: Store, order: Uuid, newCert: Uuid, site: Uuid, cert: Uuid)
    requires Inv(st) && site in st.sites && order !in st.orders && !SiteBusy(st, site)
    requires DefaultCert(st.bindings, site) == Some(cert) || (DefaultCert(st.bindings, site).None? && cert == newCert && newCert !in st.owner)
    ensures var st' := Run(st, RenewalRun(order, newCert, site, cert));
      var b := CertBinding(site, cert, |VersionsOf(st.versions, cert)| + 1, true);
      && VersionsOf(st'.versions, cert) == VersionsOf(st.versions, cert) + [b.version]
      && b in st'.bindings && (forall x :: x in st'.bindings && x.site == site && x.isDefault ==> x == b)
      && order in st'.orders && st'.orders[order].status.Issued?
  {
    RunFour(st, RenewalRun(order, newCert, site, cert));
    var st1 := Next(st, RenewSite(order, newCert, site));
    StepKeepsInv(st, RenewSite(order, newCert, site));
    RenewsDefault(st, order, newCert, site, cert);
    FinishOrder(st1, order, site);
  }

  /** A pending order of a live site, presented, claimed and persisted. */
  lemma FinishOrder(st: Store, order: Uuid, site: Uuid)
    requires Inv(st) && site in st.sites && order in st.orders && st.orders[order].status.Pending? && st.orders[order].site == Some(site)
    ensures var cert, kind := st.orders[order].cert, st.orders[order].orderType;
      var st' := Next(Next(Next(st, SetStatus(order, Presented)), Claim(order)), PersistJob(Job(order, Some(site), cert, kind)));
      var b := CertBinding(site, cert, |VersionsOf(st.versions, cert)| + 1, true);
      && VersionsOf(st'.versions, cert) == VersionsOf(st.versions, cert) + [b.version]
      && b in st'.bindings && (forall x :: x in st'.bindings && x.site == site && x.isDefault ==> x == b)
      && order in st'.orders && st'.orders[order].status.Issued?
  {
    PresentAndClaim(st, order);
    var claimed := Next(Next(st, SetStatus(order, Presented)), Claim(order));
    var job := Job(order, Some(site), st.orders[order].cert, st.orders[order].orderType);
    assert job in claimed.jobs && Persist(claimed, job).Some?;
    PersistedIsDefault(claimed, job);
  }

  lemma RenewsDefault(st: Store, order: Uuid, newCert: Uuid, site: Uuid, cert: Uuid)
    requires Inv(st) && site in st.sites && order !in st.orders && !SiteBusy(st, site)
    requires DefaultCert(st.bindings, site) == Some(cert) || (DefaultCert(st.bindings, site).None? && cert == newCert && newCert !in st.owner)
    ensures var st1 := Next(st, RenewSite(order, newCert, site));
      && order in st1.orders && st1.orders[order] == Order(Some(site), cert, Renew, Pending)
      && st1.versions == st.versions && st1.sites == st.sites
  {
    var c := RenewSiteOrders(st, order, newCert, site);
    if DefaultCert(st.bindings, site).Some? {
      SoleDefaultCert(st.bindings, site);
      var b :| b in st.bindings && b.site == site && b.isDefault && b.cert == cert;
      var x :| x in st.bindings && x.site == site && x.isDefault && x.cert == c;
      DefaultIsSole(st.bindings, b, x);
    }
  }
}
