/**
 * Node tokens: the in-memory token store and the hub's checks on top of it.
 *
 * Access and refresh tokens are kept in the same way, so the reasoning is about one kind of token:
 * a map of live leases, a map of current tokens by node, and the log of what happened to the node.
 * A token is text with a random UUID in it; a fresh token is one never issued before.
 */
module TokenStore {
  import opened Common

  type Token = string

  datatype Lease = Lease(node: Uuid, expiresAt: int)

  datatype Event = Issued(node: Uuid, token: Token, expiresAt: int) | Revoked(node: Uuid)

  /** Position of the last event of `node`, or -1. */
  function LastIndex(log: seq<Event>, node: Uuid): (k: int)
    ensures -1 <= k < |log|
    ensures k >= 0 ==> log[k].node == node
    ensures forall j :: k < j < |log| ==> log[j].node != node
  {
    if log == [] then -1
    else if log[|log| - 1].node == node then |log| - 1
    else LastIndex(log[..|log| - 1], node)
  }

  ghost predicate NeverIssued(log: seq<Event>, token: Token) {
    forall i :: 0 <= i < |log| && log[i].Issued? ==> log[i].token != token
  }

  /** No token was issued twice. */
  ghost predicate UniqueTokens(log: seq<Event>) {
    forall i, j :: 0 <= i < j < |log| && log[i].Issued? && log[j].Issued? ==> log[i].token != log[j].token
  }

  /** The event that made the token of `node` current, if the last event of the node is one. */
  function Current(log: seq<Event>, node: Uuid): Option<Event> {
    var k := LastIndex(log, node);
    if k >= 0 && log[k].Issued? then Some(log[k]) else None
  }

  /** The token is the one the node's last event issued. */
  predicate IsCurrent(log: seq<Event>, node: Uuid, token: Token) {
    Current(log, node).Some? && Current(log, node).value.token == token
  }

  /** The lease was given with this token at some time. */
  ghost predicate WasIssued(log: seq<Event>, token: Token, lease: Lease) {
    exists i :: 0 <= i < |log| && log[i] == Issued(lease.node, token, lease.expiresAt)
  }

  /** The live leases are exactly the tokens of the current map, each leased to its own node. */
  ghost predicate TokensAgree(live: map<Token, Lease>, current: map<Uuid, Token>, log: seq<Event>) {
    && UniqueTokens(log)
    && (forall n :: n in current <==> Current(log, n).Some?)
    && (forall n :: n in current ==> current[n] == Current(log, n).value.token)
    && (forall n :: n in current ==> current[n] in live && live[current[n]].node == n)
    && (forall t :: t in live ==> Current(log, live[t].node) == Some(Issued(live[t].node, t, live[t].expiresAt)))
  }

  lemma CurrentAfter(log: seq<Event>, e: Event, node: Uuid)
    ensures Current(log + [e], node) == if e.node != node then Current(log, node) else if e.Issued? then Some(e) else None
  {
    var log' := log + [e];
    assert log'[..|log|] == log;
    var k := LastIndex(log, node);
    assert k >= 0 ==> log'[k] == log[k];
  }

  /** Forgets the current token of `node`. */
  function DropLive(live: map<Token, Lease>, current: map<Uuid, Token>, node: Uuid): map<Token, Lease> {
    if node in current then live - {current[node]} else live
  }

  /** No live token but the dropped one belongs to the node. */
  lemma DropForgetsNode(live: map<Token, Lease>, current: map<Uuid, Token>, log: seq<Event>, node: Uuid)
    requires TokensAgree(live, current, log)
    ensures forall t :: t in DropLive(live, current, node) <==> t in live && live[t].node != node
  {
    forall t | t in live && live[t].node == node
      ensures node in current && current[node] == t
    {
    }
  }

  lemma RevokeKeepsAgreement(live: map<Token, Lease>, current: map<Uuid, Token>, log: seq<Event>, node: Uuid)
    requires TokensAgree(live, current, log)
    ensures TokensAgree(DropLive(live, current, node), current - {node}, log + [Revoked(node)])
  {
    DropForgetsNode(live, current, log, node);
    forall n ensures Current(log + [Revoked(node)], n) == if n == node then None else Current(log, n) {
      CurrentAfter(log, Revoked(node), n);
    }
  }

  lemma IssueKeepsAgreement(live: map<Token, Lease>, current: map<Uuid, Token>, log: seq<Event>, e: Event)
    requires TokensAgree(live, current, log) && e.Issued? && NeverIssued(log, e.token)
    ensures TokensAgree(DropLive(live, current, e.node)[e.token := Lease(e.node, e.expiresAt)], (current - {e.node})[e.node := e.token], log + [e])
  {
    DropForgetsNode(live, current, log, e.node);
    forall n ensures Current(log + [e], n) == if n == e.node then Some(e) else Current(log, n) {
      CurrentAfter(log, e, n);
    }
    FreshTokenIsNobodys(live, current, log, e.token);
  }

  lemma FreshTokenIsNobodys(live: map<Token, Lease>, current: map<Uuid, Token>, log: seq<Event>, token: Token)
    requires TokensAgree(live, current, log) && NeverIssued(log, token)
    ensures forall n :: n in current ==> current[n] != token
  {
    forall n | n in current ensures current[n] != token {
      assert log[LastIndex(log, n)].token == current[n];
    }
  }

  // ---------------------------------------------------------------- what agreement means

  /** Whatever was ever issued is live exactly while nothing newer happened to its node. */
  lemma TokenLiveIff(live: map<Token, Lease>, current: map<Uuid, Token>, log: seq<Event>, i: nat)
    requires TokensAgree(live, current, log) && i < |log| && log[i].Issued?
    ensures log[i].token in live <==> forall j :: i < j < |log| ==> log[j].node != log[i].node
    ensures log[i].token in live ==> live[log[i].token] == Lease(log[i].node, log[i].expiresAt)
  {
    var node, token := log[i].node, log[i].token;
    var k := LastIndex(log, node);
    assert k >= i;
    if token in live {
      var m := LastIndex(log, live[token].node);
      assert log[m] == Issued(live[token].node, token, live[token].expiresAt);
      assert m == i;
    }
    if k == i {
      assert Current(log, node) == Some(log[i]);
      assert node in current && current[node] == token;
    }
  }

  /** Every live token was issued, to the node and with the expiry its lease names. */
  lemma LiveTokenWasIssued(live: map<Token, Lease>, current: map<Uuid, Token>, log: seq<Event>, token: Token) returns (i: nat)
    requires TokensAgree(live, current, log) && token in live
    ensures i < |log| && log[i] == Issued(live[token].node, token, live[token].expiresAt)
  {
    i := LastIndex(log, live[token].node);
  }

  /** Each node has at most one live token. */
  lemma OneLivePerNode(live: map<Token, Lease>, current: map<Uuid, Token>, log: seq<Event>, t: Token, u: Token)
    requires TokensAgree(live, current, log) && t in live && u in live && live[t].node == live[u].node
    ensures t == u
  {
    assert Current(log, live[t].node).value.token == t;
  }

  // ---------------------------------------------------------------- the store

  class MemoryTokenStore {
    var access: map<Token, Lease>
    var refresh: map<Token, Lease>
    var currentAccessByNode: map<Uuid, Token>
    var currentRefreshByNode: map<Uuid, Token>
    ghost var accessLog: seq<Event>
    ghost var refreshLog: seq<Event>

    ghost predicate Valid()
      reads this
    {
      TokensAgree(access, currentAccessByNode, accessLog) && TokensAgree(refresh, currentRefreshByNode, refreshLog)
    }

    constructor ()
      ensures Valid() && accessLog == [] && refreshLog == []
    {
      access, refresh, currentAccessByNode, currentRefreshByNode := map[], map[], map[], map[];
      accessLog, refreshLog := [], [];
    }

    method IssueTokens(node: Uuid, accessToken: Token, refreshToken: Token, expiresAt: int)
      requires Valid() && NeverIssued(accessLog, accessToken) && NeverIssued(refreshLog, refreshToken)
      modifies this
      ensures Valid()
      ensures accessLog == old(accessLog) + [Issued(node, accessToken, expiresAt)]
      ensures refreshLog == old(refreshLog) + [Issued(node, refreshToken, expiresAt)]
    {
      ghost var a, r := Issued(node, accessToken, expiresAt), Issued(node, refreshToken, expiresAt);
      DropTokens(node);
      var lease := Lease(node, expiresAt);
      access, refresh := access[accessToken := lease], refresh[refreshToken := lease];
      currentAccessByNode := currentAccessByNode[node := accessToken];
      currentRefreshByNode := currentRefreshByNode[node := refreshToken];
      accessLog, refreshLog := accessLog + [a], refreshLog + [r];
      assert TokensAgree(access, currentAccessByNode, accessLog) by {
        IssueKeepsAgreement(old(access), old(currentAccessByNode), old(accessLog), a);
      }
      assert TokensAgree(refresh, currentRefreshByNode, refreshLog) by {
        IssueKeepsAgreement(old(refresh), old(currentRefreshByNode), old(refreshLog), r);
      }
    }

    method RevokeTokens(node: Uuid)
      requires Valid()
      modifies this
      ensures Valid()
      ensures accessLog == old(accessLog) + [Revoked(node)] && refreshLog == old(refreshLog) + [Revoked(node)]
    {
      RevokeKeepsAgreement(access, currentAccessByNode, accessLog, node);
      RevokeKeepsAgreement(refresh, currentRefreshByNode, refreshLog, node);
      DropTokens(node);
      accessLog, refreshLog := accessLog + [Revoked(node)], refreshLog + [Revoked(node)];
    }

    /** The removals both operations start with. */
    method DropTokens(node: Uuid)
      modifies `access, `refresh, `currentAccessByNode, `currentRefreshByNode
      ensures access == DropLive(old(access), old(currentAccessByNode), node)
      ensures refresh == DropLive(old(refresh), old(currentRefreshByNode), node)
      ensures currentAccessByNode == old(currentAccessByNode) - {node}
      ensures currentRefreshByNode == old(currentRefreshByNode) - {node}
    {
      if node in currentAccessByNode {
        access := access - {currentAccessByNode[node]};
        currentAccessByNode := currentAccessByNode - {node};
      }
      if node in currentRefreshByNode {
        refresh := refresh - {currentRefreshByNode[node]};
        currentRefreshByNode := currentRefreshByNode - {node};
      }
    }

    /** `authorize_node`: only the newest access token of the node itself, until it expires. */
    method AuthorizeNode(node: Uuid, token: Token, now: int, nodeExists: bool) returns (ok: bool)
      requires Valid()
      ensures ok <==> nodeExists && exists expiresAt :: expiresAt >= now && Current(accessLog, node) == Some(Issued(node, token, expiresAt))
    {
      if token in access {
        assert Current(accessLog, access[token].node) == Some(Issued(access[token].node, token, access[token].expiresAt));
      }
      assert Current(accessLog, node).Some? ==> node in currentAccessByNode && currentAccessByNode[node] in access;
      if token !in access || access[token].node != node || access[token].expiresAt < now {
        return false;
      }
      return nodeExists;
    }

    /** The lookup of a refresh token: a lease is found exactly when the token is its node's current one. */
    method RefreshLease(token: Token) returns (lease: Option<Lease>)
      requires Valid()
      ensures lease.Some? ==> WasIssued(refreshLog, token, lease.value)
      ensures forall node :: lease.Some? && lease.value.node == node <==> IsCurrent(refreshLog, node, token)
    {
      if token in refresh {
        ghost var i := LiveTokenWasIssued(refresh, currentRefreshByNode, refreshLog, token);
      }
      forall node ensures token in refresh && refresh[token].node == node <==> IsCurrent(refreshLog, node, token) {
        assert Current(refreshLog, node).Some? ==> node in currentRefreshByNode && currentRefreshByNode[node] in refresh;
      }
      lease := if token in refresh then Some(refresh[token]) else None;
    }

    /**
     * The rest of `refresh_node_token`, with the lease it had looked up before: the token buys a new pair and
     * is worth nothing after.  Two requests that looked it up before either issued both get a pair; only the
     * newer one lives.
     */
    method IssueForLease(node: Uuid, token: Token, lease: Option<Lease>, accessToken: Token, refreshToken: Token, expiresAt: int) returns (ok: bool)
      requires Valid() && NeverIssued(accessLog, accessToken) && NeverIssued(refreshLog, refreshToken)
      requires lease.Some? ==> WasIssued(refreshLog, token, lease.value)
      modifies this
      ensures Valid()
      ensures ok <==> lease.Some? && lease.value.node == node
      ensures !ok ==> accessLog == old(accessLog) && refreshLog == old(refreshLog)
      ensures ok ==> accessLog == old(accessLog) + [Issued(node, accessToken, expiresAt)]
      ensures ok ==> refreshLog == old(refreshLog) + [Issued(node, refreshToken, expiresAt)]
      ensures ok ==> token !in refresh
    {
      if lease.None? || lease.value.node != node {
        return false;
      }
      ghost var i: nat :| i < |refreshLog| && refreshLog[i] == Issued(node, token, lease.value.expiresAt);
      IssueTokens(node, accessToken, refreshToken, expiresAt);
      assert refreshLog[i].token == token && refreshLog[|refreshLog| - 1].node == node;
      TokenLiveIff(refresh, currentRefreshByNode, refreshLog, i);
      return true;
    }

    /** `refresh_node_token` with nothing between its accesses: only the node's current refresh token is accepted. */
    method RefreshNodeToken(node: Uuid, token: Token, accessToken: Token, refreshToken: Token, expiresAt: int) returns (ok: bool)
      requires Valid() && NeverIssued(accessLog, accessToken) && NeverIssued(refreshLog, refreshToken)
      modifies this
      ensures Valid()
      ensures ok <==> IsCurrent(old(refreshLog), node, token)
      ensures !ok ==> accessLog == old(accessLog) && refreshLog == old(refreshLog)
      ensures ok ==> accessLog == old(accessLog) + [Issued(node, accessToken, expiresAt)]
      ensures ok ==> refreshLog == old(refreshLog) + [Issued(node, refreshToken, expiresAt)]
      ensures ok ==> token !in refresh
    {
      var lease := RefreshLease(token);
      ok := IssueForLease(node, token, lease, accessToken, refreshToken, expiresAt);
    }
  }
}
