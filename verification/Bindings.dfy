/** Node bindings of one site and the two ways their primary is moved. */
module Bindings {
  import opened Common
  import opened Sorting
  import opened Text

  datatype Role = Primary | Standby | OtherRole(text: string)

  /** One row of `site_node_bindings`, without its site. */
  datatype Row = Row(nodeId: Uuid, role: Role, priority: int)

  /** A row as the failover worker loads it, joined with the node it names. */
  datatype Binding = Binding(row: Row, nodeCode: string, nodeStatus: string)

  // ---------------------------------------------------------------- stored rows

  /** The UNIQUE (site_id, node_id) constraint. */
  ghost predicate UniqueNodes(rows: multiset<Row>) {
    && (forall r :: r in rows ==> rows[r] == 1)
    && (forall r, q :: r in rows && q in rows && r.nodeId == q.nodeId ==> r == q)
  }

  /** `p` is the only primary row, and it occurs once. */
  ghost predicate SolePrimary(rows: multiset<Row>, p: Row) {
    && p.role.Primary?
    && rows[p] == 1
    && (forall r :: r in rows && r.role.Primary? ==> r == p)
  }

  ghost predicate SinglePrimary(rows: multiset<Row>) {
    exists p :: SolePrimary(rows, p)
  }

  ghost predicate Bound(rows: multiset<Row>, node: Uuid) {
    exists r :: r in rows && r.nodeId == node
  }

  predicate DistinctNodes(s: seq<Row>) {
    forall i, j :: 0 <= i < j < |s| ==> s[i].nodeId != s[j].nodeId
  }

  lemma UniqueAdd(rows: multiset<Row>, row: Row)
    requires UniqueNodes(rows) && forall r :: r in rows ==> r.nodeId != row.nodeId
    ensures UniqueNodes(multiset{row} + rows)
  {
    assert row !in rows;
  }

  lemma {:induction false} DistinctIsUnique(s: seq<Row>)
    requires DistinctNodes(s)
    ensures UniqueNodes(multiset(s))
  {
    if s != [] {
      var rest := s[1..];
      DistinctIsUnique(rest);
      forall r: Row | r in multiset(rest) ensures r.nodeId != s[0].nodeId {
        var i :| 0 <= i < |rest| && rest[i] == r;
        assert s[i + 1] == r;
      }
      UniqueAdd(multiset(rest), s[0]);
      assert s == [s[0]] + rest;
    }
  }

  lemma UniqueIsDistinct(s: seq<Row>)
    requires UniqueNodes(multiset(s))
    ensures DistinctNodes(s)
  {
    forall i, j | 0 <= i < j < |s| ensures s[i].nodeId != s[j].nodeId {
      assert s == s[..j] + [s[j]] + s[j+1..];
      assert s[i] in s[..j];
      assert multiset(s[..j])[s[i]] >= 1;
      assert s[i] in multiset(s) && s[j] in multiset(s);
    }
  }

  function Rows(s: seq<Binding>): seq<Row> {
    seq(|s|, i requires 0 <= i < |s| => s[i].row)
  }

  lemma RowsConcat(a: seq<Binding>, b: seq<Binding>)
    ensures Rows(a + b) == Rows(a) + Rows(b)
  {
  }

  /** Reordering bindings reorders their rows. */
  lemma {:induction false} RowsOfInsert(x: Binding, s: seq<Binding>, le: (Binding, Binding) -> bool)
    ensures multiset(Rows(Insert(x, s, le))) == multiset(Rows(s)) + multiset{x.row}
  {
    if s == [] {
      assert Rows([x]) == [x.row];
    } else if le(x, s[0]) {
      RowsConcat([x], s);
      assert Rows([x]) == [x.row];
    } else {
      RowsOfInsert(x, s[1..], le);
      RowsConcat([s[0]], Insert(x, s[1..], le));
      assert s == [s[0]] + s[1..];
      RowsConcat([s[0]], s[1..]);
      assert Rows([s[0]]) == [s[0].row];
    }
  }

  lemma {:induction false} RowsOfSort(s: seq<Binding>, le: (Binding, Binding) -> bool)
    ensures multiset(Rows(Sort(s, le))) == multiset(Rows(s))
  {
    if s != [] {
      RowsOfSort(s[1..], le);
      RowsOfInsert(s[0], Sort(s[1..], le), le);
      assert s == [s[0]] + s[1..];
      RowsConcat([s[0]], s[1..]);
      assert Rows([s[0]]) == [s[0].row];
    }
  }

  // ---------------------------------------------------------------- failover worker

  predicate BindingLe(a: Binding, b: Binding) {
    a.row.priority < b.row.priority ||
    (a.row.priority == b.row.priority && LexLe(a.nodeCode, b.nodeCode))
  }

  lemma BindingLeIsTotal()
    ensures TotalPreorder(BindingLe)
  {
    forall a: Binding, b: Binding ensures BindingLe(a, b) || BindingLe(b, a) {
      LexTotal(a.nodeCode, b.nodeCode);
    }
    forall a: Binding, b: Binding, c: Binding | BindingLe(a, b) && BindingLe(b, c) ensures BindingLe(a, c) {
      if a.row.priority == b.row.priority == c.row.priority {
        LexTransitive(a.nodeCode, b.nodeCode, c.nodeCode);
      }
    }
  }

  /** First binding of a node, as `iter().find(..)` returns it. */
  function FindNode(s: seq<Binding>, node: Uuid): (r: Option<Binding>)
    ensures r.Some? ==> r.value in s && r.value.row.nodeId == node
    ensures r.None? ==> forall b :: b in s ==> b.row.nodeId != node
  {
    if s == [] then None
    else if s[0].row.nodeId == node then Some(s[0])
    else FindNode(s[1..], node)
  }

  function FindPrimaryOf(s: seq<Binding>, node: Uuid): (r: Option<Binding>)
    ensures r.Some? ==> r.value in s && r.value.row.nodeId == node && r.value.row.role.Primary?
    ensures r.None? ==> forall b :: b in s ==> !(b.row.nodeId == node && b.row.role.Primary?)
  {
    if s == [] then None
    else if s[0].row.nodeId == node && s[0].row.role.Primary? then Some(s[0])
    else FindPrimaryOf(s[1..], node)
  }

  function Primaries(s: seq<Binding>): (r: seq<Binding>)
    ensures forall b :: b in r <==> b in s && b.row.role.Primary?
  {
    if s == [] then []
    else (if s[0].row.role.Primary? then [s[0]] else []) + Primaries(s[1..])
  }

  predicate PriorityLe(a: Binding, b: Binding) {
    a.row.priority <= b.row.priority
  }

  /** The primary of lowest priority value, first one on a tie. */
  function CurrentPrimaryNodeId(s: seq<Binding>): Option<Uuid> {
    if Primaries(s) == [] then None else Some(FirstMin(Primaries(s), PriorityLe).row.nodeId)
  }

  function CurrentPrimaryPriority(s: seq<Binding>, primary: Uuid): int {
    match FindPrimaryOf(s, primary)
    case Some(b) => b.row.priority
    case None => if Primaries(s) == [] then 10 else FirstMin(Primaries(s), PriorityLe).row.priority
  }

  function StandbyPreviousPriority(s: seq<Binding>, primary: Uuid, standby: Uuid): int {
    match FindNode(s, standby)
    case Some(b) => b.row.priority
    case None => CurrentPrimaryPriority(s, primary) + 10
  }

  function DemotedPriority(s: seq<Binding>, primary: Uuid, standby: Uuid): int {
    Max(StandbyPreviousPriority(s, primary, standby), CurrentPrimaryPriority(s, primary) + 10)
  }

  /** The bindings a failover leaves alone. */
  function Others(s: seq<Binding>, primary: Uuid, standby: Uuid): (r: seq<Binding>)
    ensures forall b :: b in r <==> b in s && b.row.nodeId != primary && b.row.nodeId != standby
  {
    if s == [] then []
    else (if s[0].row.nodeId != primary && s[0].row.nodeId != standby then [s[0]] else [])
         + Others(s[1..], primary, standby)
  }

  function Promoted(s: seq<Binding>, primary: Uuid, standby: Uuid): Binding {
    var row := Row(standby, Primary, CurrentPrimaryPriority(s, primary));
    match FindNode(s, standby)
    case Some(b) => b.(row := row)
    case None => Binding(row, Decimal(standby), "online")
  }

  function Demoted(s: seq<Binding>, primary: Uuid, standby: Uuid): Binding {
    var row := Row(primary, Standby, DemotedPriority(s, primary, standby));
    match FindNode(s, primary)
    case Some(b) => b.(row := row)
    case None => Binding(row, Decimal(primary), "offline")
  }

  function BuildSwitchedBindings(s: seq<Binding>, primary: Uuid, standby: Uuid): seq<Binding> {
    Sort(Others(s, primary, standby)
         + [Promoted(s, primary, standby)]
         + [Demoted(s, primary, standby)], BindingLe)
  }

  /** With distinct nodes, finding a node finds its one binding. */
  lemma FindNodeIsTheOne(s: seq<Binding>, b: Binding)
    requires UniqueNodes(multiset(Rows(s))) && b in s
    ensures FindNode(s, b.row.nodeId) == Some(b)
  {
    UniqueIsDistinct(Rows(s));
    var f := FindNode(s, b.row.nodeId).value;
    var i :| 0 <= i < |s| && s[i] == b;
    var j :| 0 <= j < |s| && s[j] == f;
    assert Rows(s)[i].nodeId == Rows(s)[j].nodeId;
  }

  /** The worker takes a primary row of lowest priority value for the current primary, and nobody if there is none. */
  lemma CurrentPrimaryIsLowest(s: seq<Binding>) returns (m: Option<Binding>)
    ensures m.None? <==> forall b :: b in s ==> !b.row.role.Primary?
    ensures CurrentPrimaryNodeId(s) == if m.None? then None else Some(m.value.row.nodeId)
    ensures m.Some? ==> m.value in s && m.value.row.role.Primary?
    ensures m.Some? ==> forall b :: b in s && b.row.role.Primary? ==> m.value.row.priority <= b.row.priority
  {
    var ps := Primaries(s);
    if ps == [] {
      assert forall b :: b in s && b.row.role.Primary? ==> b in ps;
      m := None;
    } else {
      assert TotalPreorder(PriorityLe);
      FirstMinIsLeast(ps, PriorityLe);
      var least := FirstMin(ps, PriorityLe);
      assert forall b :: b in s && b.row.role.Primary? ==> b in ps && PriorityLe(least, b);
      m := Some(least);
    }
  }

  /**
   * The priority of the promoted node: that of the policy primary's own primary row; without one, the lowest
   * of any primary row; without any, 10.
   */
  lemma PromotedPriority(s: seq<Binding>, primary: Uuid)
    requires UniqueNodes(multiset(Rows(s)))
    ensures forall b :: b in s && b.row.nodeId == primary && b.row.role.Primary? ==> CurrentPrimaryPriority(s, primary) == b.row.priority
    ensures (forall b :: b in s && b.row.role.Primary? ==> b.row.nodeId != primary) ==>
              forall b :: b in s && b.row.role.Primary? ==> CurrentPrimaryPriority(s, primary) <= b.row.priority
    ensures (exists b :: b in s && b.row.role.Primary?) ==>
              exists b :: b in s && b.row.role.Primary? && b.row.priority == CurrentPrimaryPriority(s, primary)
    ensures (forall b :: b in s ==> !b.row.role.Primary?) ==> CurrentPrimaryPriority(s, primary) == 10
  {
    var m := CurrentPrimaryIsLowest(s);
    match FindPrimaryOf(s, primary) {
      case Some(f) =>
        forall b | b in s && b.row.nodeId == primary && b.row.role.Primary? ensures b.row == f.row {
          RowsMember(s, b.row);
          RowsMember(s, f.row);
        }
      case None =>
        if m.Some? {
          var ps := Primaries(s);
          assert m.value in ps && FirstMin(ps, PriorityLe) in ps;
          assert TotalPreorder(PriorityLe);
          FirstMinIsLeast(ps, PriorityLe);
        }
    }
  }

  /** The priority of the demoted node: the promoted one's old priority, but at least ten after its new one. */
  lemma DemotedPriorityIs(s: seq<Binding>, primary: Uuid, standby: Uuid)
    requires UniqueNodes(multiset(Rows(s)))
    ensures var pp, dp := CurrentPrimaryPriority(s, primary), DemotedPriority(s, primary, standby);
      && dp >= pp + 10
      && (forall b :: b in s && b.row.nodeId == standby ==> dp >= b.row.priority && (dp == b.row.priority || dp == pp + 10))
      && ((forall b :: b in s ==> b.row.nodeId != standby) ==> dp == pp + 10)
  {
    forall b | b in s && b.row.nodeId == standby ensures StandbyPreviousPriority(s, primary, standby) == b.row.priority {
      FindNodeIsTheOne(s, b);
    }
  }

  /** The stored effect of a failover, whatever order the bindings were loaded in. */
  lemma SwitchedRows(s: seq<Binding>, primary: Uuid, standby: Uuid)
    ensures multiset(Rows(BuildSwitchedBindings(s, primary, standby)))
         == multiset(Rows(Others(s, primary, standby)))
            + multiset{Row(standby, Primary, CurrentPrimaryPriority(s, primary)),
                       Row(primary, Standby, DemotedPriority(s, primary, standby))}
  {
    var p, d := Promoted(s, primary, standby), Demoted(s, primary, standby);
    var o := Others(s, primary, standby);
    RowsOfSort(o + [p] + [d], BindingLe);
    RowsConcat(o + [p], [d]);
    RowsConcat(o, [p]);
    assert Rows([p]) == [p.row] && Rows([d]) == [d.row];
  }

  lemma RowsMember(s: seq<Binding>, r: Row)
    ensures r in multiset(Rows(s)) <==> exists b :: b in s && b.row == r
  {
    if r in multiset(Rows(s)) {
      var i :| 0 <= i < |Rows(s)| && Rows(s)[i] == r;
      assert s[i] in s && s[i].row == r;
    }
    if b :| b in s && b.row == r {
      var i :| 0 <= i < |s| && s[i] == b;
      assert Rows(s)[i] == r;
    }
  }

  lemma {:induction false} OthersRows(s: seq<Binding>, primary: Uuid, standby: Uuid)
    ensures forall r: Row :: multiset(Rows(Others(s, primary, standby)))[r]
              == if r.nodeId == primary || r.nodeId == standby then 0 else multiset(Rows(s))[r]
  {
    if s != [] {
      OthersRows(s[1..], primary, standby);
      assert s == [s[0]] + s[1..];
      RowsConcat([s[0]], s[1..]);
      assert Rows([s[0]]) == [s[0].row];
      var head := if s[0].row.nodeId != primary && s[0].row.nodeId != standby then [s[0]] else [];
      RowsConcat(head, Others(s[1..], primary, standby));
    }
  }

  /** A promoted and a demoted row beside others: one primary exactly when none of the others is. */
  lemma OnePrimaryBeside(others: multiset<Row>, promoted: Row, demoted: Row)
    requires promoted.role.Primary? && !demoted.role.Primary? && promoted !in others
    ensures SinglePrimary(others + multiset{promoted, demoted}) <==> forall r :: r in others ==> !r.role.Primary?
  {
    var rows := others + multiset{promoted, demoted};
    assert rows[promoted] == 1;
    if forall r :: r in others ==> !r.role.Primary? {
      assert SolePrimary(rows, promoted);
    }
    if SinglePrimary(rows) {
      var p :| SolePrimary(rows, p);
      assert promoted in rows;
      forall r | r in others ensures !r.role.Primary? {
        assert r in rows;
      }
    }
  }

  /** The rows carried over hold a primary exactly when a node other than the two was primary. */
  lemma OthersPrimaryIff(s: seq<Binding>, primary: Uuid, standby: Uuid)
    ensures (forall r :: r in multiset(Rows(Others(s, primary, standby))) ==> !r.role.Primary?)
       <==> forall b :: b in s && b.row.role.Primary? ==> b.row.nodeId == primary || b.row.nodeId == standby
  {
    var others := Others(s, primary, standby);
    forall b | b in others ensures b.row in multiset(Rows(others)) {
      RowsMember(others, b.row);
    }
    forall r | r in multiset(Rows(others)) ensures exists b :: b in others && b.row == r {
      RowsMember(others, r);
    }
  }

  /** A failover ends with exactly one primary precisely when nobody but the two policy nodes was primary. */
  lemma FailoverSinglePrimaryIff(s: seq<Binding>, primary: Uuid, standby: Uuid)
    ensures SinglePrimary(multiset(Rows(BuildSwitchedBindings(s, primary, standby))))
       <==> forall b :: b in s && b.row.role.Primary? ==> b.row.nodeId == primary || b.row.nodeId == standby
  {
    SwitchedRows(s, primary, standby);
    OthersRows(s, primary, standby);
    OthersPrimaryIff(s, primary, standby);
    OnePrimaryBeside(multiset(Rows(Others(s, primary, standby))),
                     Row(standby, Primary, CurrentPrimaryPriority(s, primary)),
                     Row(primary, Standby, DemotedPriority(s, primary, standby)));
  }

  /** With a single primary, every way of loading the rows finds it. */
  lemma CurrentPrimaryIsSole(s: seq<Binding>, p: Row)
    requires SolePrimary(multiset(Rows(s)), p)
    ensures CurrentPrimaryNodeId(s) == Some(p.nodeId)
    ensures CurrentPrimaryPriority(s, p.nodeId) == p.priority
  {
    RowsMember(s, p);
    var m := FirstMin(Primaries(s), PriorityLe);
    RowsMember(s, m.row);
    match FindPrimaryOf(s, p.nodeId)
    case Some(b) => RowsMember(s, b.row);
    case None => assert false;
  }

  /** A failover applied to its own result finds the promoted node already in place and does nothing. */
  lemma RetriggerIsNoOp(s: seq<Binding>, primary: Uuid, standby: Uuid, reloaded: seq<Binding>)
    requires forall b :: b in s && b.row.role.Primary? ==> b.row.nodeId == primary || b.row.nodeId == standby
    requires multiset(Rows(reloaded)) == multiset(Rows(BuildSwitchedBindings(s, primary, standby)))
    ensures CurrentPrimaryNodeId(reloaded) == Some(standby)
  {
    FailoverSinglePrimaryIff(s, primary, standby);
    SwitchedRows(s, primary, standby);
    var p := Row(standby, Primary, CurrentPrimaryPriority(s, primary));
    var q :| SolePrimary(multiset(Rows(reloaded)), q);
    assert p in multiset(Rows(reloaded));
    CurrentPrimaryIsSole(reloaded, q);
  }

  function StandbyRank(status: string): int {
    if IsOnline(status) then 0 else 1
  }

  /** Case-insensitive comparison of ASCII letters with "online". */
  predicate IsOnline(status: string) {
    |status| == 6 &&
    forall i :: 0 <= i < 6 ==> status[i] == "online"[i] || status[i] == "ONLINE"[i]
  }

  predicate StandbyLe(a: Binding, b: Binding) {
    StandbyRank(a.nodeStatus) < StandbyRank(b.nodeStatus) ||
    (StandbyRank(a.nodeStatus) == StandbyRank(b.nodeStatus) && BindingLe(a, b))
  }

  function StandbyCandidates(s: seq<Binding>, primary: Uuid): (r: seq<Binding>)
    ensures forall b :: b in r <==> b in s && b.row.nodeId != primary && b.row.role.Standby?
  {
    if s == [] then []
    else (if s[0].row.nodeId != primary && s[0].row.role.Standby? then [s[0]] else [])
         + StandbyCandidates(s[1..], primary)
  }

  function SelectNextPolicyStandby(s: seq<Binding>, primary: Uuid): Option<Uuid> {
    if StandbyCandidates(s, primary) == [] then None
    else Some(FirstMin(StandbyCandidates(s, primary), StandbyLe).row.nodeId)
  }

  /** The chosen standby is a best candidate: online before offline, then lowest priority, then lowest code. */
  lemma NextStandbyIsBest(s: seq<Binding>, primary: Uuid)
    ensures SelectNextPolicyStandby(s, primary).None? <==>
            forall b :: b in s && b.row.role.Standby? ==> b.row.nodeId == primary
    ensures SelectNextPolicyStandby(s, primary).Some? ==>
            exists m :: m in s && m.row.nodeId == SelectNextPolicyStandby(s, primary).value
              && m.row.nodeId != primary && m.row.role.Standby?
              && forall b :: b in s && b.row.nodeId != primary && b.row.role.Standby? ==> StandbyLe(m, b)
  {
    var c := StandbyCandidates(s, primary);
    if c == [] {
      forall b | b in s && b.row.role.Standby? ensures b.row.nodeId == primary {
        assert b !in c;
      }
    } else {
      BindingLeIsTotal();
      FirstMinIsLeast(c, StandbyLe);
      var m := FirstMin(c, StandbyLe);
      assert m in s && m.row.nodeId == SelectNextPolicyStandby(s, primary).value;
    }
  }

  lemma OnlineIgnoresCase(status: string)
    ensures IsOnline(status) <==> Lower(status) == "online"
  {
    var lower := Lower(status);
    if lower == "online" {
      forall i | 0 <= i < 6 ensures status[i] == "online"[i] || status[i] == "ONLINE"[i] {
        assert lower[i] == LowerChar(status[i]);
      }
    }
  }

  /** An online node before one that is not; then the lower priority value; then the lower code. */
  predicate Preferred(m: Binding, b: Binding) {
    var mOnline, bOnline := Lower(m.nodeStatus) == "online", Lower(b.nodeStatus) == "online";
    && (bOnline ==> mOnline)
    && (bOnline == mOnline ==>
          m.row.priority < b.row.priority || (m.row.priority == b.row.priority && LexLe(m.nodeCode, b.nodeCode)))
  }

  lemma LeastIsPreferred(m: Binding, b: Binding)
    ensures StandbyLe(m, b) <==> Preferred(m, b)
  {
    OnlineIgnoresCase(m.nodeStatus);
    OnlineIgnoresCase(b.nodeStatus);
  }

  /** The chosen standby is preferred to every other candidate: online first, then by priority, then by code. */
  lemma NextStandbyIsPreferred(s: seq<Binding>, primary: Uuid) returns (m: Binding)
    requires SelectNextPolicyStandby(s, primary).Some?
    ensures m in s && m.row.nodeId == SelectNextPolicyStandby(s, primary).value
    ensures m.row.nodeId != primary && m.row.role.Standby?
    ensures forall b :: b in s && b.row.nodeId != primary && b.row.role.Standby? ==> Preferred(m, b)
  {
    NextStandbyIsBest(s, primary);
    m :| m in s && m.row.nodeId == SelectNextPolicyStandby(s, primary).value
         && m.row.nodeId != primary && m.row.role.Standby?
         && forall b :: b in s && b.row.nodeId != primary && b.row.role.Standby? ==> StandbyLe(m, b);
    forall b | b in s && b.row.nodeId != primary && b.row.role.Standby? ensures Preferred(m, b) {
      LeastIsPreferred(m, b);
    }
  }

  /** Policy nodes that are not bound enter as if the one were online and the other offline, under their own ids as codes. */
  lemma MissingNodes(s: seq<Binding>, primary: Uuid, standby: Uuid)
    ensures (forall b :: b in s ==> b.row.nodeId != standby) ==>
              Promoted(s, primary, standby).nodeStatus == "online" && Promoted(s, primary, standby).nodeCode == Decimal(standby)
    ensures (forall b :: b in s ==> b.row.nodeId != primary) ==>
              Demoted(s, primary, standby).nodeStatus == "offline" && Demoted(s, primary, standby).nodeCode == Decimal(primary)
  {
  }

  /** The bindings a failover builds: those it leaves alone, the promoted and the demoted one. */
  lemma SwitchedMembers(s: seq<Binding>, primary: Uuid, standby: Uuid, b: Binding)
    ensures b in BuildSwitchedBindings(s, primary, standby) <==>
            (b in s && b.row.nodeId != primary && b.row.nodeId != standby)
            || b == Promoted(s, primary, standby) || b == Demoted(s, primary, standby)
  {
    SortMembers(Others(s, primary, standby) + [Promoted(s, primary, standby)] + [Demoted(s, primary, standby)], BindingLe, b);
  }

  /** After a failover a next standby always exists: the demoted node is one. */
  lemma FailoverFindsNextStandby(s: seq<Binding>, primary: Uuid, standby: Uuid)
    requires primary != standby
    ensures SelectNextPolicyStandby(BuildSwitchedBindings(s, primary, standby), standby).Some?
  {
    var r := BuildSwitchedBindings(s, primary, standby);
    var d := Demoted(s, primary, standby);
    SortMembers(Others(s, primary, standby) + [Promoted(s, primary, standby)] + [d], BindingLe, d);
    assert d in r && d.row.role.Standby? && d.row.nodeId != standby;
    assert d in StandbyCandidates(r, standby);
  }

  // ---------------------------------------------------------------- manual switch

  predicate RowPriorityLe(a: Row, b: Row) {
    a.priority <= b.priority
  }

  /** The role an untouched node has after a manual switch: a second primary is demoted. */
  function KeptRole(role: Role): Role {
    if role.Primary? then Standby else role
  }

  /** Rows other than `skip`, renumbered from `start` in steps of 100. */
  function Renumber(s: seq<Row>, skip: set<Uuid>, start: int): seq<Row> {
    if s == [] then []
    else if s[0].nodeId in skip then Renumber(s[1..], skip, start)
    else [Row(s[0].nodeId, KeptRole(s[0].role), start)] + Renumber(s[1..], skip, start + 100)
  }

  /** Every renumbered row comes from an untouched row of the same node. */
  lemma {:induction false} RenumberSource(s: seq<Row>, skip: set<Uuid>, start: int, r: Row) returns (q: Row)
    requires r in Renumber(s, skip, start)
    ensures q in s && q.nodeId == r.nodeId && r.nodeId !in skip && r.role == KeptRole(q.role)
  {
    if s[0].nodeId in skip {
      q := RenumberSource(s[1..], skip, start, r);
    } else if r == Row(s[0].nodeId, KeptRole(s[0].role), start) {
      q := s[0];
    } else {
      q := RenumberSource(s[1..], skip, start + 100, r);
    }
  }

  /** Every untouched row is renumbered, not dropped. */
  lemma {:induction false} RenumberImage(s: seq<Row>, skip: set<Uuid>, start: int, q: Row) returns (r: Row)
    requires q in s && q.nodeId !in skip
    ensures r in Renumber(s, skip, start) && r.nodeId == q.nodeId && r.role == KeptRole(q.role)
  {
    if q == s[0] {
      r := Renumber(s, skip, start)[0];
    } else {
      assert q in s[1..];
      r := RenumberImage(s[1..], skip, if s[0].nodeId in skip then start else start + 100, q);
    }
  }

  lemma {:induction false} RenumberDistinct(s: seq<Row>, skip: set<Uuid>, start: int)
    requires DistinctNodes(s)
    ensures DistinctNodes(Renumber(s, skip, start))
  {
    if s != [] {
      var next := if s[0].nodeId in skip then start else start + 100;
      RenumberDistinct(s[1..], skip, next);
      var tail := Renumber(s[1..], skip, next);
      forall j | 0 <= j < |tail| ensures tail[j].nodeId != s[0].nodeId {
        var q := RenumberSource(s[1..], skip, next, tail[j]);
      }
    }
  }

  function FindRole(s: seq<Row>, not: Option<Uuid>, role: Role): (r: Option<Row>)
    ensures r.Some? ==> r.value in s && r.value.role == role && Some(r.value.nodeId) != not
    ensures r.None? ==> forall q :: q in s ==> !(q.role == role && Some(q.nodeId) != not)
  {
    if s == [] then None
    else if s[0].role == role && Some(s[0].nodeId) != not then Some(s[0])
    else FindRole(s[1..], not, role)
  }

  function FindOther(s: seq<Row>, not: Uuid): (r: Option<Row>)
    ensures r.Some? ==> r.value in s && r.value.nodeId != not
    ensures r.None? ==> forall q :: q in s ==> q.nodeId == not
  {
    if s == [] then None
    else if s[0].nodeId != not then Some(s[0])
    else FindOther(s[1..], not)
  }

  /** The primary the hub believes in: the first primary row, else simply the first row. */
  function HubPrimary(s: seq<Row>): Uuid
    requires s != []
  {
    match FindRole(s, None, Primary)
    case Some(r) => r.nodeId
    case None => s[0].nodeId
  }

  /** The node a switch without an explicit target picks. */
  function DefaultTarget(s: seq<Row>): Option<Uuid>
    requires s != []
  {
    match FindRole(s, Some(HubPrimary(s)), Standby)
    case Some(r) => Some(r.nodeId)
    case None =>
      match FindOther(s, HubPrimary(s))
      case Some(r) => Some(r.nodeId)
      case None => None
  }

  function SwitchTarget(s: seq<Row>, requested: Option<Uuid>): Option<Uuid>
    requires s != []
  {
    if requested.Some? then requested else DefaultTarget(s)
  }

  /** The hub believes in the primary row of lowest priority value, and without one in the first row. */
  lemma HubPrimaryIsLowest(s: seq<Row>)
    requires s != [] && SortedBy(s, RowPriorityLe)
    ensures (forall q :: q in s ==> !q.role.Primary?) ==> HubPrimary(s) == s[0].nodeId
    ensures (exists q :: q in s && q.role.Primary?) ==>
              exists p :: p in s && p.role.Primary? && p.nodeId == HubPrimary(s)
                && forall q :: q in s && q.role.Primary? ==> p.priority <= q.priority
  {
    var f := FindRole(s, None, Primary);
    if f.Some? {
      forall q | q in s && q.role.Primary? ensures f.value.priority <= q.priority {
        FindRoleIsFirst(s, None, Primary, q);
      }
      assert f.value in s;
    }
  }

  /** The part of a manual switch that is neither the target nor the previous primary. */
  function ManualTail(s: seq<Row>, target: Uuid, previous: Uuid, keep: bool): seq<Row> {
    Renumber(Sort(s, RowPriorityLe), {target, previous}, if keep then 300 else 200)
  }

  /** The rows a manual switch stores: target first, then the previous primary if kept, then the rest. */
  function ManualRows(s: seq<Row>, target: Uuid, previous: Uuid, keep: bool): seq<Row> {
    [Row(target, Primary, 100)]
    + (if keep then [Row(previous, Standby, 200)] else [])
    + ManualTail(s, target, previous, keep)
  }

  /** The running `next_priority` loop of the switch. */
  method BuildManualRows(s: seq<Row>, target: Uuid, previous: Uuid, keep: bool) returns (rows: seq<Row>)
    requires target != previous
    ensures rows == ManualRows(s, target, previous, keep)
    ensures forall i :: 0 <= i < |rows| ==> rows[i].priority == 100 * (i + 1)
  {
    rows := [Row(target, Primary, 100)];
    var nextPriority := 200;
    if keep {
      rows := rows + [Row(previous, Standby, nextPriority)];
      nextPriority := nextPriority + 100;
    }
    var remaining := Sort(s, RowPriorityLe);
    for i := 0 to |remaining|
      invariant rows + Renumber(remaining[i..], {target, previous}, nextPriority) == ManualRows(s, target, previous, keep)
      invariant nextPriority == 100 * (|rows| + 1)
      invariant forall k :: 0 <= k < |rows| ==> rows[k].priority == 100 * (k + 1)
    {
      var row := remaining[i];
      assert remaining[i..] == [row] + remaining[i+1..];
      if row.nodeId != target && row.nodeId != previous {
        rows := rows + [Row(row.nodeId, KeptRole(row.role), nextPriority)];
        nextPriority := nextPriority + 100;
      }
    }
    assert remaining[|remaining|..] == [];
  }

  function StandbyRows(s: seq<Row>, primary: Uuid): (r: seq<Row>)
    ensures forall q :: q in r <==> q in s && q.nodeId != primary && q.role.Standby?
  {
    if s == [] then []
    else (if s[0].nodeId != primary && s[0].role.Standby? then [s[0]] else []) + StandbyRows(s[1..], primary)
  }

  function SelectNextHubStandby(s: seq<Row>, primary: Uuid): Option<Uuid> {
    if StandbyRows(s, primary) == [] then None
    else Some(FirstMin(StandbyRows(s, primary), RowPriorityLe).nodeId)
  }

  lemma RowPriorityLeIsTotal()
    ensures TotalPreorder(RowPriorityLe)
  {
  }

  /** The hub's next standby exists when any standby row does, and is one of lowest priority value. */
  lemma HubStandbyIsBest(s: seq<Row>, primary: Uuid)
    ensures SelectNextHubStandby(s, primary).None? <==> forall q :: q in s && q.role.Standby? ==> q.nodeId == primary
    ensures SelectNextHubStandby(s, primary).Some? ==>
              exists m :: m in s && m.nodeId == SelectNextHubStandby(s, primary).value && m.nodeId != primary && m.role.Standby?
                && forall q :: q in s && q.nodeId != primary && q.role.Standby? ==> m.priority <= q.priority
  {
    var candidates := StandbyRows(s, primary);
    if candidates == [] {
      assert forall q :: q in s && q.role.Standby? && q.nodeId != primary ==> q in candidates;
    } else {
      RowPriorityLeIsTotal();
      FirstMinIsLeast(candidates, RowPriorityLe);
      var m := FirstMin(candidates, RowPriorityLe);
      assert m in candidates;
      forall q | q in s && q.nodeId != primary && q.role.Standby? ensures m.priority <= q.priority {
        assert q in candidates && RowPriorityLe(m, q);
      }
    }
  }

  lemma {:induction false} FindRoleIsFirst(s: seq<Row>, not: Option<Uuid>, role: Role, q: Row)
    requires SortedBy(s, RowPriorityLe) && q in s && q.role == role && Some(q.nodeId) != not
    ensures FindRole(s, not, role).Some? && FindRole(s, not, role).value.priority <= q.priority
  {
    var i :| 0 <= i < |s| && s[i] == q;
    assert i > 0 ==> RowPriorityLe(s[0], s[i]);
    if !(s[0].role == role && Some(s[0].nodeId) != not) {
      assert s[1..][i - 1] == q;
      FindRoleIsFirst(s[1..], not, role, q);
    }
  }

  lemma {:induction false} OtherIsFirst(s: seq<Row>, not: Uuid)
    requires SortedBy(s, RowPriorityLe)
    ensures FindOther(s, not).Some? ==> forall q :: q in s && q.nodeId != not ==> FindOther(s, not).value.priority <= q.priority
  {
    if s != [] {
      assert forall q :: q in s ==> s[0].priority <= q.priority;
      if s[0].nodeId == not {
        OtherIsFirst(s[1..], not);
        assert forall q :: q in s && q.nodeId != not ==> q in s[1..];
      }
    }
  }

  /**
   * Without an explicit target a switch picks the standby of lowest priority value, falls back to any
   * other bound node only when there is no standby, and finds nobody only when no other node is bound.
   */
  lemma DefaultTargetIsFirstStandby(s: seq<Row>)
    requires s != [] && SortedBy(s, RowPriorityLe)
    ensures DefaultTarget(s).None? <==> forall q :: q in s ==> q.nodeId == HubPrimary(s)
    ensures DefaultTarget(s).Some? ==>
              exists r :: r in s && r.nodeId == DefaultTarget(s).value && r.nodeId != HubPrimary(s)
                && forall q :: q in s && q.role.Standby? && q.nodeId != HubPrimary(s) ==> r.role.Standby? && r.priority <= q.priority
    ensures DefaultTarget(s).Some? && (forall q :: q in s && q.nodeId != HubPrimary(s) ==> !q.role.Standby?) ==>
              exists r :: r in s && r.nodeId == DefaultTarget(s).value && forall q :: q in s && q.nodeId != HubPrimary(s) ==> r.priority <= q.priority
  {
    OtherIsFirst(s, HubPrimary(s));
    var primary := HubPrimary(s);
    var found := FindRole(s, Some(primary), Standby);
    if found.Some? {
      forall q | q in s && q.role.Standby? && q.nodeId != primary ensures found.value.priority <= q.priority {
        FindRoleIsFirst(s, Some(primary), Standby, q);
      }
      assert found.value in s;
    } else {
      assert forall q :: q in s && q.role.Standby? ==> q.nodeId == primary;
    }
  }

  lemma ManualTailSource(s: seq<Row>, target: Uuid, previous: Uuid, keep: bool, r: Row) returns (q: Row)
    requires r in ManualTail(s, target, previous, keep)
    ensures q in s && q.nodeId == r.nodeId && r.nodeId != target && r.nodeId != previous && r.role == KeptRole(q.role)
  {
    q := RenumberSource(Sort(s, RowPriorityLe), {target, previous}, if keep then 300 else 200, r);
    SortMembers(s, RowPriorityLe, q);
  }

  lemma ManualTailImage(s: seq<Row>, target: Uuid, previous: Uuid, keep: bool, q: Row) returns (r: Row)
    requires q in s && q.nodeId != target && q.nodeId != previous
    ensures r in ManualTail(s, target, previous, keep) && r.nodeId == q.nodeId && r.role == KeptRole(q.role)
  {
    SortMembers(s, RowPriorityLe, q);
    r := RenumberImage(Sort(s, RowPriorityLe), {target, previous}, if keep then 300 else 200, q);
  }

  lemma PrependDistinct(head: seq<Row>, tail: seq<Row>)
    requires DistinctNodes(head) && DistinctNodes(tail)
    requires forall i, j :: 0 <= i < |head| && 0 <= j < |tail| ==> head[i].nodeId != tail[j].nodeId
    ensures DistinctNodes(head + tail)
  {
  }

  lemma ManualTailDistinct(s: seq<Row>, target: Uuid, previous: Uuid, keep: bool)
    requires UniqueNodes(multiset(s))
    ensures var tail := ManualTail(s, target, previous, keep);
      DistinctNodes(tail) && forall k :: 0 <= k < |tail| ==> tail[k].nodeId != target && tail[k].nodeId != previous
  {
    SortPermutes(s, RowPriorityLe);
    UniqueIsDistinct(Sort(s, RowPriorityLe));
    RenumberDistinct(Sort(s, RowPriorityLe), {target, previous}, if keep then 300 else 200);
    var tail := ManualTail(s, target, previous, keep);
    forall k | 0 <= k < |tail| ensures tail[k].nodeId != target && tail[k].nodeId != previous {
      var q := ManualTailSource(s, target, previous, keep, tail[k]);
    }
  }

  /** A manual switch never violates the unique constraint. */
  lemma ManualRowsDistinct(s: seq<Row>, target: Uuid, previous: Uuid, keep: bool)
    requires target != previous && UniqueNodes(multiset(s))
    ensures DistinctNodes(ManualRows(s, target, previous, keep))
  {
    ManualTailDistinct(s, target, previous, keep);
    var head := [Row(target, Primary, 100)] + (if keep then [Row(previous, Standby, 200)] else []);
    PrependDistinct(head, ManualTail(s, target, previous, keep));
  }

  /** A primary row put before rows none of which is primary is the only one. */
  lemma SoleInFront(p: Row, rest: seq<Row>)
    requires p.role.Primary? && forall r :: r in rest ==> !r.role.Primary?
    ensures SolePrimary(multiset([p] + rest), p)
  {
    assert p !in rest;
  }

  /** A manual switch makes the target the only primary, even if the rows held several primaries before. */
  lemma ManualRowsPrimary(s: seq<Row>, target: Uuid, previous: Uuid, keep: bool)
    requires target != previous
    ensures SolePrimary(multiset(ManualRows(s, target, previous, keep)), Row(target, Primary, 100))
  {
    var tail := ManualTail(s, target, previous, keep);
    forall r | r in tail ensures !r.role.Primary? {
      var q := ManualTailSource(s, target, previous, keep, r);
    }
    var rest := (if keep then [Row(previous, Standby, 200)] else []) + tail;
    assert ManualRows(s, target, previous, keep) == [Row(target, Primary, 100)] + rest;
    SoleInFront(Row(target, Primary, 100), rest);
  }

  lemma {:induction false} RenumberFrom(s: seq<Row>, skip: set<Uuid>, start: int, r: Row)
    requires r in Renumber(s, skip, start)
    ensures r.priority >= start
  {
    if s[0].nodeId in skip {
      RenumberFrom(s[1..], skip, start, r);
    } else if r != Row(s[0].nodeId, KeptRole(s[0].role), start) {
      RenumberFrom(s[1..], skip, start + 100, r);
    }
  }

  /** Renumbering keeps the order of the rows it takes over. */
  lemma {:induction false} RenumberKeepsOrder(s: seq<Row>, skip: set<Uuid>, start: int, a: Row, b: Row, ra: Row, rb: Row)
    requires DistinctNodes(s) && SortedBy(s, RowPriorityLe) && a in s && b in s && a.priority < b.priority
    requires ra in Renumber(s, skip, start) && rb in Renumber(s, skip, start) && ra.nodeId == a.nodeId && rb.nodeId == b.nodeId
    ensures ra.priority < rb.priority
  {
    var head := s[0];
    assert forall q :: q in s[1..] ==> head.priority <= q.priority && head.nodeId != q.nodeId;
    var next := if head.nodeId in skip then start else start + 100;
    forall r | r in Renumber(s[1..], skip, next) ensures r.nodeId != head.nodeId && r.priority >= next {
      var q := RenumberSource(s[1..], skip, next, r);
      RenumberFrom(s[1..], skip, next, r);
    }
    assert b in s[1..];
    if a != head {
      assert a in s[1..];
      RenumberKeepsOrder(s[1..], skip, next, a, b, ra, rb);
    }
  }

  /** The nodes a manual switch does not name keep their old priority order. */
  lemma ManualTailKeepsOrder(s: seq<Row>, target: Uuid, previous: Uuid, keep: bool, a: Row, b: Row, ra: Row, rb: Row)
    requires target != previous && UniqueNodes(multiset(s)) && a in s && b in s && a.priority < b.priority
    requires a.nodeId != target && a.nodeId != previous && b.nodeId != target && b.nodeId != previous
    requires ra in ManualRows(s, target, previous, keep) && rb in ManualRows(s, target, previous, keep)
    requires ra.nodeId == a.nodeId && rb.nodeId == b.nodeId
    ensures ra.priority < rb.priority
  {
    var sorted := Sort(s, RowPriorityLe);
    SortPermutes(s, RowPriorityLe);
    RowPriorityLeIsTotal();
    SortSorts(s, RowPriorityLe);
    UniqueIsDistinct(sorted);
    SortMembers(s, RowPriorityLe, a);
    SortMembers(s, RowPriorityLe, b);
    RenumberKeepsOrder(sorted, {target, previous}, if keep then 300 else 200, a, b, ra, rb);
  }

  /** They come after the target and the kept primary, and a kept primary is the first standby. */
  lemma KeptPrimaryIsNextStandby(s: seq<Row>, target: Uuid, previous: Uuid)
    requires target != previous
    ensures SelectNextHubStandby(ManualRows(s, target, previous, true), target) == Some(previous)
  {
    var rows := ManualRows(s, target, previous, true);
    var kept := Row(previous, Standby, 200);
    assert rows[1] == kept;
    HubStandbyIsBest(rows, target);
    var m :| m in rows && m.nodeId == SelectNextHubStandby(rows, target).value && m.nodeId != target && m.role.Standby?
             && forall q :: q in rows && q.nodeId != target && q.role.Standby? ==> m.priority <= q.priority;
    assert kept in rows && m.priority <= 200;
    if m in ManualTail(s, target, previous, true) {
      RenumberFrom(Sort(s, RowPriorityLe), {target, previous}, 300, m);
    }
  }

  /** A manual switch keeps every bound node, except the previous primary when it is not kept. */
  lemma ManualRowsBound(s: seq<Row>, target: Uuid, previous: Uuid, keep: bool, node: Uuid)
    requires target != previous
    ensures Bound(multiset(ManualRows(s, target, previous, keep)), node)
       <==> node == target || (keep && node == previous) || (node != previous && Bound(multiset(s), node))
  {
    var rows := ManualRows(s, target, previous, keep);
    var tail := ManualTail(s, target, previous, keep);
    assert rows[0] == Row(target, Primary, 100) && rows[0] in multiset(rows);
    if keep {
      assert rows[1] == Row(previous, Standby, 200) && rows[1] in multiset(rows);
    }
    if r :| r in multiset(rows) && r.nodeId == node {
      if r in tail {
        var q := ManualTailSource(s, target, previous, keep, r);
        assert q in multiset(s);
      }
    }
    if node != target && node != previous && Bound(multiset(s), node) {
      var q :| q in multiset(s) && q.nodeId == node;
      var r := ManualTailImage(s, target, previous, keep, q);
      assert r in multiset(rows);
    }
  }
}
