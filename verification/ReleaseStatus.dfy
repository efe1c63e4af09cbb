/** The status of a release, computed from the acknowledgements of its target nodes. */
module ReleaseStatus {
  import opened Common

  datatype ApplyStatus = Pending | Downloading | Applying | Success | Failed | OtherStatus(text: string)

  datatype Status = StatusPending | StatusPublishing | StatusSuccess | StatusFailed

  datatype Counts = Counts(success: nat, failed: nat, inProgress: nat, pending: nat)

  type Acks = map<Uuid, ApplyStatus>

  predicate InProgress(s: ApplyStatus) {
    s.Downloading? || s.Applying?
  }

  /** Nodes by the class the hub counts them in. */
  function Succeeded(acks: Acks): set<Uuid> {
    set n | n in acks && acks[n].Success?
  }

  function FailedNodes(acks: Acks): set<Uuid> {
    set n | n in acks && acks[n].Failed?
  }

  function Working(acks: Acks): set<Uuid> {
    set n | n in acks && InProgress(acks[n])
  }

  function Waiting(acks: Acks): set<Uuid> {
    set n | n in acks && !acks[n].Success? && !acks[n].Failed? && !InProgress(acks[n])
  }

  /** One failure decides; otherwise all must succeed; otherwise any work in progress shows. */
  function Aggregate(acks: Acks): Status {
    if acks == map[] then StatusPending
    else if FailedNodes(acks) != {} then StatusFailed
    else if Succeeded(acks) == acks.Keys then StatusSuccess
    else if Working(acks) != {} then StatusPublishing
    else StatusPending
  }

  /** `aggregate_release_status`: three flags set in one pass over the acknowledgements, in any order. */
  method AggregateReleaseStatus(acks: Acks) returns (status: Status)
    ensures status == Aggregate(acks)
  {
    if acks == map[] {
      return StatusPending;
    }
    var hasInProgress, hasFailed, allSuccess := false, false, true;
    var rest := acks.Keys;
    while rest != {}
      invariant rest <= acks.Keys
      invariant hasFailed <==> exists n :: n in acks.Keys - rest && acks[n].Failed?
      invariant hasInProgress <==> exists n :: n in acks.Keys - rest && InProgress(acks[n])
      invariant allSuccess <==> forall n :: n in acks.Keys - rest ==> acks[n].Success?
    {
      var n :| n in rest;
      rest := rest - {n};
      match acks[n] {
        case Success =>
        case Failed => hasFailed, allSuccess := true, false;
        case Downloading => hasInProgress, allSuccess := true, false;
        case Applying => hasInProgress, allSuccess := true, false;
        case _ => allSuccess := false;
      }
    }
    assert acks.Keys - rest == acks.Keys;
    assert hasFailed <==> FailedNodes(acks) != {} by {
      if n :| n in acks && acks[n].Failed? { assert n in FailedNodes(acks); }
    }
    assert hasInProgress <==> Working(acks) != {} by {
      if n :| n in acks && InProgress(acks[n]) { assert n in Working(acks); }
    }
    assert allSuccess <==> Succeeded(acks) == acks.Keys by {
      if n :| n in acks && !acks[n].Success? { assert n !in Succeeded(acks); }
    }
    if hasFailed {
      return StatusFailed;
    } else if allSuccess {
      return StatusSuccess;
    } else if hasInProgress {
      return StatusPublishing;
    } else {
      return StatusPending;
    }
  }

  /** The part of `acks` still to be counted is `rest`. */
  ghost predicate CountsOf(c: Counts, acks: Acks, rest: set<Uuid>) {
    && c.success == |Succeeded(acks) - rest|
    && c.failed == |FailedNodes(acks) - rest|
    && c.inProgress == |Working(acks) - rest|
    && c.pending == |Waiting(acks) - rest|
  }

  lemma CountOne(s: set<Uuid>, rest: set<Uuid>, n: Uuid)
    requires n in rest
    ensures |s - (rest - {n})| == |s - rest| + (if n in s then 1 else 0)
  {
    if n in s {
      assert s - (rest - {n}) == (s - rest) + {n};
    } else {
      assert s - (rest - {n}) == s - rest;
    }
  }

  /** The counts after one more acknowledgement. */
  function Tally(c: Counts, ack: ApplyStatus): Counts {
    match ack
    case Success => c.(success := c.success + 1)
    case Failed => c.(failed := c.failed + 1)
    case Downloading => c.(inProgress := c.inProgress + 1)
    case Applying => c.(inProgress := c.inProgress + 1)
    case _ => c.(pending := c.pending + 1)
  }

  lemma TallyCounts(c: Counts, acks: Acks, rest: set<Uuid>, n: Uuid)
    requires n in rest && rest <= acks.Keys && CountsOf(c, acks, rest)
    ensures CountsOf(Tally(c, acks[n]), acks, rest - {n})
  {
    var s, f, w, p := Succeeded(acks), FailedNodes(acks), Working(acks), Waiting(acks);
    CountOne(s, rest, n);
    CountOne(f, rest, n);
    CountOne(w, rest, n);
    CountOne(p, rest, n);
  }

  lemma CountsWhenDone(c: Counts, acks: Acks)
    requires CountsOf(c, acks, {})
    ensures c == Counts(|Succeeded(acks)|, |FailedNodes(acks)|, |Working(acks)|, |Waiting(acks)|)
  {
    var s, f, w, p := Succeeded(acks), FailedNodes(acks), Working(acks), Waiting(acks);
    assert s - {} == s && f - {} == f && w - {} == w && p - {} == p;
  }

  lemma CountsAtStart(acks: Acks)
    ensures CountsOf(Counts(0, 0, 0, 0), acks, acks.Keys)
  {
    var s, f, w, p := Succeeded(acks), FailedNodes(acks), Working(acks), Waiting(acks);
    assert s - acks.Keys == {} && f - acks.Keys == {} && w - acks.Keys == {} && p - acks.Keys == {};
  }

  /** `summarize_release_counts` */
  method SummarizeReleaseCounts(acks: Acks) returns (counts: Counts)
    ensures counts == Counts(|Succeeded(acks)|, |FailedNodes(acks)|, |Working(acks)|, |Waiting(acks)|)
  {
    counts := Counts(0, 0, 0, 0);
    var rest := acks.Keys;
    CountsAtStart(acks);
    while rest != {}
      invariant rest <= acks.Keys && CountsOf(counts, acks, rest)
    {
      var n :| n in rest;
      TallyCounts(counts, acks, rest, n);
      counts := Tally(counts, acks[n]);
      rest := rest - {n};
    }
    CountsWhenDone(counts, acks);
  }

  lemma SubsetOfSameSize(a: set<Uuid>, b: set<Uuid>)
    requires a <= b && |a| == |b|
    ensures a == b
  {
    assert |b - a| == |b| - |a|;
  }

  lemma ClassesPartition(acks: Acks)
    ensures |Succeeded(acks)| + |FailedNodes(acks)| + |Working(acks)| + |Waiting(acks)| == |acks.Keys|
  {
    var s, f, w, p := Succeeded(acks), FailedNodes(acks), Working(acks), Waiting(acks);
    assert acks.Keys == s + f + w + p;
    assert s !! f && (s + f) !! w && (s + f + w) !! p;
  }

  /** The cached status and the per-status counts always tell the same story. */
  lemma StatusAgreesWithCounts(acks: Acks)
    ensures |Succeeded(acks)| + |FailedNodes(acks)| + |Working(acks)| + |Waiting(acks)| == |acks.Keys|
    ensures Aggregate(acks) == StatusFailed <==> |FailedNodes(acks)| > 0
    ensures Aggregate(acks) == StatusSuccess <==> |acks.Keys| > 0 && |Succeeded(acks)| == |acks.Keys|
    ensures Aggregate(acks) == StatusPublishing <==>
              |FailedNodes(acks)| == 0 && |Working(acks)| > 0
  {
    ClassesPartition(acks);
    assert acks != map[] ==> acks.Keys != {};
    if |Succeeded(acks)| == |acks.Keys| {
      SubsetOfSameSize(Succeeded(acks), acks.Keys);
    }
  }

  /** The classes spelled out: downloading and applying nodes are at work, those of any other status wait. */
  lemma ClassesAre(acks: Acks, n: Uuid)
    requires n in acks
    ensures n in Succeeded(acks) <==> acks[n] == Success
    ensures n in FailedNodes(acks) <==> acks[n] == Failed
    ensures n in Working(acks) <==> acks[n] == Downloading || acks[n] == Applying
    ensures n in Waiting(acks) <==> acks[n] == Pending || acks[n].OtherStatus?
  {
  }

  /** The status spelled out, from the acknowledgements alone. */
  lemma StatusIs(acks: Acks)
    ensures (exists n :: n in acks && acks[n] == Failed) ==> Aggregate(acks) == StatusFailed
    ensures acks != map[] && (forall n :: n in acks ==> acks[n] == Success) ==> Aggregate(acks) == StatusSuccess
    ensures (forall n :: n in acks ==> acks[n] != Failed) && (exists n :: n in acks && (acks[n] == Downloading || acks[n] == Applying)) ==>
              Aggregate(acks) == StatusPublishing
    ensures acks == map[] ==> Aggregate(acks) == StatusPending
    ensures (forall n :: n in acks ==> acks[n] == Pending || acks[n] == Success || acks[n].OtherStatus?) && (exists n :: n in acks && acks[n] != Success) ==>
              Aggregate(acks) == StatusPending
  {
    forall n | n in acks
      ensures (n in Succeeded(acks) <==> acks[n] == Success) && (n in FailedNodes(acks) <==> acks[n] == Failed)
      ensures n in Working(acks) <==> acks[n] == Downloading || acks[n] == Applying
    {
      ClassesAre(acks, n);
    }
    assert acks != map[] ==> acks.Keys != {};
  }
}
