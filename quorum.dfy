/** The proposer's view of one phase: the loop over the membership table that
    skips the proposer itself and collects the replies of the reachable peers,
    and the two quorum tests evaluated on what was collected. */
module Quorum {
  import opened Protocol

  /** The `responses` list after the first `k` entries of the table: the
      proposer itself and the peers that refused the connection add nothing. */
  function Collected(replies: seq<Option<Status>>, self: nat, k: nat): seq<Status>
    requires k <= |replies|
    decreases k
  {
    if k == 0 then []
    else if k - 1 == self || replies[k - 1].None? then Collected(replies, self, k - 1)
    else Collected(replies, self, k - 1) + [replies[k - 1].value]
  }

  /** The `responses` list at the end of a phase; `replies[i]` is node `i`'s
      reply, `None` when the connection was refused. */
  function Responses(replies: seq<Option<Status>>, self: NodeId): seq<Status>
    requires |replies| == N
  {
    Collected(replies, self, N)
  }

  /** Phase 1 test: every collected response is a promise. It holds of the
      empty list, and fails exactly when an accepted or a reject is present. */
  predicate AllPromised(responses: seq<Status>)
    ensures responses == [] ==> AllPromised(responses)
    ensures AllPromised(responses) <==> Accepted !in responses && Reject !in responses
  {
    forall i :: 0 <= i < |responses| ==> responses[i] == Promise
  }

  /** Number of collected responses whose status is `"accepted"`: at most the
      number of responses, and zero exactly when none is `"accepted"`. */
  function AcceptedCount(responses: seq<Status>): (count: nat)
    ensures count <= |responses|
    ensures count == 0 <==> Accepted !in responses
    decreases |responses|
  {
    if responses == [] then 0
    else AcceptedCount(responses[..|responses| - 1])
         + (if responses[|responses| - 1] == Accepted then 1 else 0)
  }

  /** Phase 2 test: more than `len(NODES) // 2` responses are `"accepted"`,
      which takes at least two responses. */
  predicate Commits(responses: seq<Status>)
    ensures Commits(responses) ==> |responses| >= 2 && Accepted in responses
  {
    AcceptedCount(responses) > N / 2
  }

  /** The collection loop shared by both phases: visits every table entry in
      order, skips the proposer and the unreachable peers, appends the rest. */
  method GatherResponses(replies: seq<Option<Status>>, self: NodeId) returns (responses: seq<Status>)
    requires |replies| == N
    ensures responses == Responses(replies, self)
  {
    responses := [];
    for i := 0 to N
      invariant responses == Collected(replies, self, i)
    {
      if i != self {
        match replies[i] {
          case None =>
          case Some(st) => responses := responses + [st];
        }
      }
    }
  }

  /** Peers among the first `k` table entries. */
  function PeersBelow(self: nat, k: nat): nat
  {
    if self < k then k - 1 else k
  }

  lemma {:induction false} CollectedBound(replies: seq<Option<Status>>, self: nat, k: nat)
    requires k <= |replies|
    ensures |Collected(replies, self, k)| <= PeersBelow(self, k)
    decreases k
  {
    if k > 0 {
      CollectedBound(replies, self, k - 1);
    }
  }

  /** The proposer never hears from itself, so a phase collects at most
      `N - 1` responses. */
  lemma ResponsesAtMostPeers(replies: seq<Option<Status>>, self: NodeId)
    requires |replies| == N
    ensures |Responses(replies, self)| <= N - 1
  {
    CollectedBound(replies, self, N);
  }

  lemma {:induction false} CollectedAllPromised(replies: seq<Option<Status>>, self: nat, k: nat)
    requires k <= |replies|
    ensures AllPromised(Collected(replies, self, k))
            <==> forall i :: 0 <= i < k && i != self ==> replies[i] != Some(Accepted) && replies[i] != Some(Reject)
    decreases k
  {
    if k > 0 {
      CollectedAllPromised(replies, self, k - 1);
      var prefix := Collected(replies, self, k - 1);
      var all := Collected(replies, self, k);
      if AllPromised(all) {
        assert AllPromised(prefix) by {
          forall j | 0 <= j < |prefix| ensures prefix[j] == Promise {
            assert all[j] == prefix[j];
          }
        }
        if k - 1 != self && replies[k - 1].Some? {
          assert all[|all| - 1] == replies[k - 1].value;
        }
      }
    }
  }

  /** Phase 1 passes exactly when no peer that answered answered otherwise
      than with a promise; unreachable peers are not counted against it. */
  lemma PhaseOneIff(replies: seq<Option<Status>>, self: NodeId)
    requires |replies| == N
    ensures AllPromised(Responses(replies, self))
            <==> forall i :: 0 <= i < N && i != self ==> replies[i] == None || replies[i] == Some(Promise)
  {
    CollectedAllPromised(replies, self, N);
    if forall i :: 0 <= i < N && i != self ==> replies[i] != Some(Accepted) && replies[i] != Some(Reject) {
      forall i | 0 <= i < N && i != self
        ensures replies[i] == None || replies[i] == Some(Promise)
      {
        match replies[i] {
          case None =>
          case Some(st) => assert st != Accepted && st != Reject;
        }
      }
    }
  }

  /** With every peer unreachable nothing is collected and Phase 1 passes. */
  lemma NoPeerReachablePassesPhaseOne(replies: seq<Option<Status>>, self: NodeId)
    requires |replies| == N
    requires forall i :: 0 <= i < N && i != self ==> replies[i] == None
    ensures Responses(replies, self) == []
    ensures AllPromised(Responses(replies, self))
  {
    CollectedBound(replies, self, N);
    CollectedNoneHeard(replies, self, N);
  }

  lemma {:induction false} CollectedNoneHeard(replies: seq<Option<Status>>, self: nat, k: nat)
    requires k <= |replies|
    requires forall i :: 0 <= i < k && i != self ==> replies[i] == None
    ensures Collected(replies, self, k) == []
    decreases k
  {
    if k > 0 {
      CollectedNoneHeard(replies, self, k - 1);
    }
  }

  lemma AcceptedCountSnoc(responses: seq<Status>, st: Status)
    ensures AcceptedCount(responses + [st]) == AcceptedCount(responses) + (if st == Accepted then 1 else 0)
  {
    assert (responses + [st])[..|responses|] == responses;
  }

  /** What entry `k - 1` of the table adds to the count of accepted responses. */
  lemma CollectedAcceptedStep(replies: seq<Option<Status>>, self: nat, k: nat)
    requires 0 < k <= |replies|
    ensures AcceptedCount(Collected(replies, self, k))
            == AcceptedCount(Collected(replies, self, k - 1))
               + (if k - 1 != self && replies[k - 1] == Some(Accepted) then 1 else 0)
  {
    var prefix := Collected(replies, self, k - 1);
    if k - 1 != self && replies[k - 1].Some? {
      assert Collected(replies, self, k) == prefix + [replies[k - 1].value];
      AcceptedCountSnoc(prefix, replies[k - 1].value);
    } else {
      assert Collected(replies, self, k) == prefix;
    }
  }

  /** Every peer among the first `k` table entries answered `"accepted"`. */
  predicate AllAcceptedBelow(replies: seq<Option<Status>>, self: nat, k: nat)
    requires k <= |replies|
  {
    forall i :: 0 <= i < k && i != self ==> replies[i] == Some(Accepted)
  }

  lemma AllAcceptedBelowStep(replies: seq<Option<Status>>, self: nat, k: nat)
    requires 0 < k <= |replies|
    ensures AllAcceptedBelow(replies, self, k)
            <==> AllAcceptedBelow(replies, self, k - 1) && (k - 1 == self || replies[k - 1] == Some(Accepted))
  {
  }

  /** Number of peers among the first `k` table entries that answered `"accepted"`. */
  function AcceptingPeers(replies: seq<Option<Status>>, self: nat, k: nat): nat
    requires k <= |replies|
    decreases k
  {
    if k == 0 then 0
    else AcceptingPeers(replies, self, k - 1)
         + (if k - 1 != self && replies[k - 1] == Some(Accepted) then 1 else 0)
  }

  lemma {:induction false} CollectedAcceptedCount(replies: seq<Option<Status>>, self: nat, k: nat)
    requires k <= |replies|
    ensures AcceptedCount(Collected(replies, self, k)) == AcceptingPeers(replies, self, k)
    decreases k
  {
    if k > 0 {
      CollectedAcceptedCount(replies, self, k - 1);
      CollectedAcceptedStep(replies, self, k);
    }
  }

  lemma {:induction false} AcceptingPeersBound(replies: seq<Option<Status>>, self: nat, k: nat)
    requires k <= |replies|
    ensures AcceptingPeers(replies, self, k) <= PeersBelow(self, k)
    ensures AcceptingPeers(replies, self, k) == PeersBelow(self, k) <==> AllAcceptedBelow(replies, self, k)
    decreases k
  {
    if k > 0 {
      AcceptingPeersBound(replies, self, k - 1);
      AllAcceptedBelowStep(replies, self, k);
    }
  }

  /** Phase 2 commits exactly when every peer replied `"accepted"`: with three
      nodes the majority test `> 1` can only be met by both peers. */
  lemma CommitsIffAllPeersAccept(replies: seq<Option<Status>>, self: NodeId)
    requires |replies| == N
    ensures Commits(Responses(replies, self))
            <==> forall i :: 0 <= i < N && i != self ==> replies[i] == Some(Accepted)
  {
    CollectedAcceptedCount(replies, self, N);
    AcceptingPeersBound(replies, self, N);
    assert PeersBelow(self, N) == 2;
  }
}
