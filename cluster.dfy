/** Three servers side by side. A `SubmitValue` attempt on node `p` is played
    out against the peers' acceptors with the same step functions as a single
    node, every peer in `up` answering and every other peer refusing the
    connection. Attempts are applied one after another. */
module Cluster {
  import opened Protocol
  import opened Acceptor
  import opened Quorum
  import opened Server

  /** The state of one server process: the fields of `Server.Node` as a
      value, so that several servers can be composed in one function. */
  datatype NodeState = NodeState(acceptor: AcceptorState, proposalNumber: nat, fileContent: Option<Value>)

  const Fresh: NodeState := NodeState(Init, 0, None)

  /** Three freshly started servers. */
  const Start: seq<NodeState> := [Fresh, Fresh, Fresh]

  /** Whether proposer `p` reaches node `i` in this attempt. */
  predicate Contacted(p: NodeId, up: set<nat>, i: nat)
  {
    i != p && i in up
  }

  /** What the peers answer to `prepare(n)` from node `p`. */
  function PrepareReplies(c: seq<NodeState>, p: NodeId, n: int, up: set<nat>): (replies: seq<Option<Status>>)
    requires |c| == N
    ensures |replies| == N
  {
    seq(N, i requires 0 <= i < N =>
      if Contacted(p, up, i) then Some(OnPrepare(c[i].acceptor, n).1) else None)
  }

  /** The servers after the peers handled `prepare(n)` from node `p`. */
  function AfterPrepare(c: seq<NodeState>, p: NodeId, n: int, up: set<nat>): (c': seq<NodeState>)
    requires |c| == N
    ensures |c'| == N
  {
    seq(N, i requires 0 <= i < N =>
      if Contacted(p, up, i) then c[i].(acceptor := OnPrepare(c[i].acceptor, n).0) else c[i])
  }

  /** What the peers answer to `accept(n, v)` from node `p`. */
  function AcceptReplies(c: seq<NodeState>, p: NodeId, n: int, v: Value, up: set<nat>): (replies: seq<Option<Status>>)
    requires |c| == N
    ensures |replies| == N
  {
    seq(N, i requires 0 <= i < N =>
      if Contacted(p, up, i) then Some(OnAccept(c[i].acceptor, n, v).1) else None)
  }

  /** The servers after the peers handled `accept(n, v)` from node `p`. */
  function AfterAccept(c: seq<NodeState>, p: NodeId, n: int, v: Value, up: set<nat>): (c': seq<NodeState>)
    requires |c| == N
    ensures |c'| == N
  {
    seq(N, i requires 0 <= i < N =>
      if Contacted(p, up, i) then c[i].(acceptor := OnAccept(c[i].acceptor, n, v).0) else c[i])
  }

  /** One whole `SubmitValue(v)` attempt on node `p`: the new servers and the
      outcome reported to the client. */
  function Submit(c: seq<NodeState>, p: NodeId, v: Value, up: set<nat>): (r: (seq<NodeState>, Outcome))
    requires |c| == N
    ensures |r.0| == N
    ensures r.0[p].proposalNumber == c[p].proposalNumber + 1
    ensures r.0[p].acceptor == c[p].acceptor
    ensures r.0[p].fileContent == if r.1 == ConsensusAchieved then Some(v) else c[p].fileContent
  {
    var n := c[p].proposalNumber + 1;
    var c1 := c[p := c[p].(proposalNumber := n)];
    var c2 := AfterPrepare(c1, p, n, up);
    if !AllPromised(Responses(PrepareReplies(c1, p, n, up), p)) then (c2, ProposalRejected)
    else
      var c3 := AfterAccept(c2, p, n, v, up);
      if Commits(Responses(AcceptReplies(c2, p, n, v, up), p)) then
        (c3[p := c3[p].(fileContent := Some(v))], ConsensusAchieved)
      else (c3, ConsensusNotAchieved)
  }

  /** An attempt reports what a single node reports for the replies it got,
      bumps only the proposer's counter, never touches the proposer's own
      acceptor, never lowers any acceptor's number, and commits only on the
      proposer. */
  lemma SubmitFrame(c: seq<NodeState>, p: NodeId, v: Value, up: set<nat>)
    requires |c| == N
    ensures var n := c[p].proposalNumber + 1;
            var c1 := c[p := c[p].(proposalNumber := n)];
            Submit(c, p, v, up).1
              == Decide(p, PrepareReplies(c1, p, n, up),
                        AcceptReplies(AfterPrepare(c1, p, n, up), p, n, v, up))
    ensures var (c', o) := Submit(c, p, v, up);
            && c'[p].acceptor == c[p].acceptor
            && c'[p].proposalNumber == c[p].proposalNumber + 1
            && c'[p].fileContent == (if o == ConsensusAchieved then Some(v) else c[p].fileContent)
            && forall i :: 0 <= i < N && i != p ==>
                 c'[i].proposalNumber == c[i].proposalNumber
                 && c'[i].fileContent == c[i].fileContent
                 && c'[i].acceptor.highest >= c[i].acceptor.highest
  {
    var n := c[p].proposalNumber + 1;
    var c1 := c[p := c[p].(proposalNumber := n)];
    var c2 := AfterPrepare(c1, p, n, up);
    AfterPrepareFrame(c1, p, n, up);
    AfterAcceptFrame(c2, p, n, v, up);
  }

  /** Handling a prepare changes only the peers' acceptors, and none of them
      lowers its number. */
  lemma AfterPrepareFrame(c: seq<NodeState>, p: NodeId, n: int, up: set<nat>)
    requires |c| == N
    ensures AfterPrepare(c, p, n, up)[p] == c[p]
    ensures forall i :: 0 <= i < N ==>
              var d := AfterPrepare(c, p, n, up)[i];
              d.proposalNumber == c[i].proposalNumber && d.fileContent == c[i].fileContent
              && d.acceptor.highest >= c[i].acceptor.highest && d.acceptor.value == c[i].acceptor.value
  {
  }

  /** Handling an accept changes only the peers' acceptors, and none of them
      lowers its number. */
  lemma AfterAcceptFrame(c: seq<NodeState>, p: NodeId, n: int, v: Value, up: set<nat>)
    requires |c| == N
    ensures AfterAccept(c, p, n, v, up)[p] == c[p]
    ensures forall i :: 0 <= i < N ==>
              var d := AfterAccept(c, p, n, v, up)[i];
              d.proposalNumber == c[i].proposalNumber && d.fileContent == c[i].fileContent
              && d.acceptor.highest >= c[i].acceptor.highest
  {
  }

  /** Phase 2 is never attempted after Phase 1 failed: no acceptor's value
      changes in a rejected attempt. */
  lemma RejectedAttemptAcceptsNothing(c: seq<NodeState>, p: NodeId, v: Value, up: set<nat>)
    requires |c| == N
    requires Submit(c, p, v, up).1 == ProposalRejected
    ensures forall i :: 0 <= i < N ==> Submit(c, p, v, up).0[i].acceptor.value == c[i].acceptor.value
  {
  }

  /** A peer that is down for the attempt rules out consensus. */
  lemma PeerDownNoConsensus(c: seq<NodeState>, p: NodeId, q: NodeId, v: Value, up: set<nat>)
    requires |c| == N
    requires q != p && q !in up
    ensures Submit(c, p, v, up).1 != ConsensusAchieved
  {
    var n := c[p].proposalNumber + 1;
    var c1 := c[p := c[p].(proposalNumber := n)];
    var c2 := AfterPrepare(c1, p, n, up);
    UnreachablePeerPreventsConsensus(p, q, PrepareReplies(c1, p, n, up), AcceptReplies(c2, p, n, v, up));
  }

  /** Phase 1 with every node up and a number above every peer's: both peers
      promise and move to that number. */
  lemma PrepareAbovePeers(c: seq<NodeState>, p: NodeId, n: int, up: set<nat>)
    requires |c| == N
    requires forall i :: 0 <= i < N ==> i in up
    requires forall i :: 0 <= i < N && i != p ==> c[i].acceptor.highest < n
    ensures AllPromised(Responses(PrepareReplies(c, p, n, up), p))
    ensures forall i :: 0 <= i < N && i != p ==> AfterPrepare(c, p, n, up)[i].acceptor.highest == n
  {
    var prep := PrepareReplies(c, p, n, up);
    assert forall i :: 0 <= i < N && i != p ==> prep[i] == Some(Promise);
    PhaseOneIff(prep, p);
  }

  /** Phase 2 with every node up and no peer above the number: both peers
      accept, record the number and the value, and the proposer commits. */
  lemma AcceptAtPeers(c: seq<NodeState>, p: NodeId, n: int, v: Value, up: set<nat>)
    requires |c| == N
    requires forall i :: 0 <= i < N ==> i in up
    requires forall i :: 0 <= i < N && i != p ==> c[i].acceptor.highest <= n
    ensures Commits(Responses(AcceptReplies(c, p, n, v, up), p))
    ensures forall i :: 0 <= i < N && i != p ==> AfterAccept(c, p, n, v, up)[i].acceptor == AcceptorState(n, Some(v))
  {
    var acc := AcceptReplies(c, p, n, v, up);
    assert forall i :: 0 <= i < N && i != p ==> acc[i] == Some(Accepted);
    CommitsIffAllPeersAccept(acc, p);
  }

  /** With every node up, an attempt whose new number is above every peer's
      highest number reaches consensus, and both peers' acceptors then hold
      that number and the value. */
  lemma SucceedsAbovePeers(c: seq<NodeState>, p: NodeId, v: Value, up: set<nat>)
    requires |c| == N
    requires forall i :: 0 <= i < N ==> i in up
    requires forall i :: 0 <= i < N && i != p ==> c[i].acceptor.highest < c[p].proposalNumber + 1
    ensures Submit(c, p, v, up).1 == ConsensusAchieved
    ensures Submit(c, p, v, up).0[p].fileContent == Some(v)
    ensures forall i :: 0 <= i < N && i != p ==>
              Submit(c, p, v, up).0[i].acceptor == AcceptorState(c[p].proposalNumber + 1, Some(v))
  {
    var n := c[p].proposalNumber + 1;
    var c1 := c[p := c[p].(proposalNumber := n)];
    PrepareAbovePeers(c1, p, n, up);
    AcceptAtPeers(AfterPrepare(c1, p, n, up), p, n, v, up);
  }

  /** On freshly started servers with every node up, the first attempt
      reaches consensus with number 1. */
  lemma FirstAttemptSucceeds(p: NodeId, v: Value)
    ensures Submit(Start, p, v, {0, 1, 2}).1 == ConsensusAchieved
    ensures Submit(Start, p, v, {0, 1, 2}).0[p].fileContent == Some(v)
    ensures forall i :: 0 <= i < N && i != p ==> Submit(Start, p, v, {0, 1, 2}).0[i].acceptor == AcceptorState(1, Some(v))
  {
    SucceedsAbovePeers(Start, p, v, {0, 1, 2});
  }

  /** Without the adoption rule the servers can commit different values, all
      nodes up and no attempts overlapping: node 0 commits "a"; node 1's first
      attempt reuses number 1 and is rejected by node 2; its retry with
      number 2 commits "b". */
  lemma DivergentCommits()
    ensures var (c1, o1) := Submit(Start, 0, "a", {0, 1, 2});
            var (c2, o2) := Submit(c1, 1, "b", {0, 1, 2});
            var (c3, o3) := Submit(c2, 1, "b", {0, 1, 2});
            && o1 == ConsensusAchieved && o2 == ProposalRejected && o3 == ConsensusAchieved
            && c3[0].fileContent == Some("a") && c3[1].fileContent == Some("b")
  {
    var up: set<nat> := {0, 1, 2};
    FirstAttemptSucceeds(0, "a");
    var (c1, o1) := Submit(Start, 0, "a", up);
    assert c1 == [NodeState(Init, 1, Some("a")),
                  NodeState(AcceptorState(1, Some("a")), 0, None),
                  NodeState(AcceptorState(1, Some("a")), 0, None)];

    // node 1, number 1: node 0 promises, node 2 has already seen 1
    var d1 := c1[1 := c1[1].(proposalNumber := 1)];
    var prep2 := PrepareReplies(d1, 1, 1, up);
    assert prep2[2] == Some(Reject);
    PhaseOneIff(prep2, 1);
    var (c2, o2) := Submit(c1, 1, "b", up);
    assert c2 == [NodeState(AcceptorState(1, None), 1, Some("a")),
                  NodeState(AcceptorState(1, Some("a")), 1, None),
                  NodeState(AcceptorState(1, Some("a")), 0, None)];

    // node 1, number 2: both peers promise and accept
    SucceedsAbovePeers(c2, 1, "b", up);
    SubmitFrame(c2, 1, "b", up);
  }

  /** With every node up, an attempt that passes Phase 1 also passes Phase 2:
      every peer promised the number, so every peer accepts it. "Consensus not
      achieved." needs a peer that is down or an interleaved competing attempt. */
  lemma NeverNotAchievedAllUp(c: seq<NodeState>, p: NodeId, v: Value, up: set<nat>)
    requires |c| == N
    requires forall i :: 0 <= i < N ==> i in up
    ensures Submit(c, p, v, up).1 != ConsensusNotAchieved
  {
    var n := c[p].proposalNumber + 1;
    var c1 := c[p := c[p].(proposalNumber := n)];
    var prep := PrepareReplies(c1, p, n, up);
    var acc := AcceptReplies(AfterPrepare(c1, p, n, up), p, n, v, up);
    SubmitFrame(c, p, v, up);
    if AllPromised(Responses(prep, p)) {
      PromisedOnlyBelow(c1, p, n, up);
      PrepareAbovePeers(c1, p, n, up);
      AcceptAtPeers(AfterPrepare(c1, p, n, up), p, n, v, up);
      assert Decide(p, prep, acc) == ConsensusAchieved;
    }
  }

  /** With every node up, Phase 1 passes only when every peer was below the
      number. */
  lemma PromisedOnlyBelow(c: seq<NodeState>, p: NodeId, n: int, up: set<nat>)
    requires |c| == N
    requires forall i :: 0 <= i < N ==> i in up
    requires AllPromised(Responses(PrepareReplies(c, p, n, up), p))
    ensures forall i :: 0 <= i < N && i != p ==> c[i].acceptor.highest < n
  {
    var prep := PrepareReplies(c, p, n, up);
    PhaseOneIff(prep, p);
    forall i | 0 <= i < N && i != p
      ensures c[i].acceptor.highest < n
    {
      assert prep[i] == Some(Promise);
    }
  }

  /** A rejected attempt still makes progress: the proposer's counter goes up
      by one, and every peer either kept its number or moved to the proposer's
      new number. */
  lemma RejectedRetryProgress(c: seq<NodeState>, p: NodeId, v: Value, up: set<nat>)
    requires |c| == N
    requires Submit(c, p, v, up).1 == ProposalRejected
    ensures Submit(c, p, v, up).0[p].proposalNumber == c[p].proposalNumber + 1
    ensures forall i :: 0 <= i < N && i != p ==>
              Submit(c, p, v, up).0[i].acceptor.highest == c[i].acceptor.highest
              || Submit(c, p, v, up).0[i].acceptor.highest == c[p].proposalNumber + 1
  {
  }

  /** A client that resubmits `v` to node `p` after each "Proposal rejected.":
      at most `k + 1` attempts, stopping at the first one not rejected. */
  function Attempts(c: seq<NodeState>, p: NodeId, v: Value, up: set<nat>, k: nat): (r: (seq<NodeState>, Outcome))
    requires |c| == N
    ensures |r.0| == N
    decreases k
  {
    var r := Submit(c, p, v, up);
    if r.1 != ProposalRejected || k == 0 then r else Attempts(r.0, p, v, up, k - 1)
  }

  /** With every node up, a client that keeps resubmitting reaches consensus:
      when no peer's number exceeds the proposer's counter by more than `k`,
      `k + 1` attempts suffice. */
  lemma {:induction false} RetrySucceeds(c: seq<NodeState>, p: NodeId, v: Value, up: set<nat>, k: nat)
    requires |c| == N
    requires forall i :: 0 <= i < N ==> i in up
    requires forall i :: 0 <= i < N && i != p ==> c[i].acceptor.highest < c[p].proposalNumber + 1 + k
    ensures Attempts(c, p, v, up, k).1 == ConsensusAchieved
    decreases k
  {
    if k == 0 {
      SucceedsAbovePeers(c, p, v, up);
    } else {
      NeverNotAchievedAllUp(c, p, v, up);
      var r := Submit(c, p, v, up);
      if r.1 == ProposalRejected {
        RejectedRetryProgress(c, p, v, up);
        RetrySucceeds(r.0, p, v, up, k - 1);
      }
    }
  }
}
