/** One server process: its module-level state as the fields of a `Node`, the
    acceptor handlers, the two proposer phases and the `SubmitValue` request.
    Peer replies are inputs (`replies[i]` is node `i`'s reply, `None` when the
    connection was refused); every handler is one atomic step. */
module Server {
  import opened Protocol
  import opened Acceptor
  import opened Quorum

  /** The three answers a `SubmitValue` request can get. */
  datatype Outcome = ProposalRejected | ConsensusNotAchieved | ConsensusAchieved

  /** The text sent back to the client for each outcome. */
  function OutcomeText(o: Outcome): string
  {
    match o
    case ProposalRejected => "Proposal rejected."
    case ConsensusNotAchieved => "Consensus not achieved."
    case ConsensusAchieved => "Consensus achieved: value stored successfully."
  }

  /** Outcome of a `SubmitValue` request on node `self`, decided by the two
      phases; the Phase 2 replies matter only once Phase 1 has passed. */
  function Decide(self: NodeId, prepareReplies: seq<Option<Status>>, acceptReplies: seq<Option<Status>>): (o: Outcome)
    requires |prepareReplies| == N && |acceptReplies| == N
    ensures o == ProposalRejected <==> !AllPromised(Responses(prepareReplies, self))
    ensures o == ConsensusAchieved ==> AllPromised(Responses(prepareReplies, self)) && Commits(Responses(acceptReplies, self))
    ensures o == ConsensusNotAchieved ==> !Commits(Responses(acceptReplies, self))
  {
    if !AllPromised(Responses(prepareReplies, self)) then ProposalRejected
    else if Commits(Responses(acceptReplies, self)) then ConsensusAchieved
    else ConsensusNotAchieved
  }

  /** The outcome in terms of what the peers answered: rejected when some peer
      answered the prepare with anything but a promise; achieved exactly when,
      on top of that, every peer answered the accept with `"accepted"`. */
  lemma DecideByPeerReplies(self: NodeId, prepareReplies: seq<Option<Status>>, acceptReplies: seq<Option<Status>>)
    requires |prepareReplies| == N && |acceptReplies| == N
    ensures Decide(self, prepareReplies, acceptReplies) == ProposalRejected
            <==> exists i :: 0 <= i < N && i != self && prepareReplies[i] != None && prepareReplies[i] != Some(Promise)
    ensures Decide(self, prepareReplies, acceptReplies) == ConsensusAchieved
            <==> (forall i :: 0 <= i < N && i != self ==> prepareReplies[i] == None || prepareReplies[i] == Some(Promise))
                 && (forall i :: 0 <= i < N && i != self ==> acceptReplies[i] == Some(Accepted))
  {
    PhaseOneIff(prepareReplies, self);
    CommitsIffAllPeersAccept(acceptReplies, self);
  }

  /** A peer that cannot be reached in Phase 2 rules out consensus, although a
      majority (the proposer and the other peer) is still up. */
  lemma UnreachablePeerPreventsConsensus(self: NodeId, q: NodeId, prepareReplies: seq<Option<Status>>, acceptReplies: seq<Option<Status>>)
    requires |prepareReplies| == N && |acceptReplies| == N
    requires q != self && acceptReplies[q] == None
    ensures Decide(self, prepareReplies, acceptReplies) != ConsensusAchieved
  {
    CommitsIffAllPeersAccept(acceptReplies, self);
  }

  class Node {
    /** This node's index in the membership table. */
    const id: NodeId
    /** Proposal counter of this node's proposer. */
    var proposalNumber: nat
    /** Highest number this node's acceptor has promised or accepted. */
    var highestAccepted: int
    /** Value this node's acceptor accepted last. */
    var acceptedValue: Option<Value>
    /** The committed "file" content; set only by this node's own proposer. */
    var fileContent: Option<Value>

    /** The acceptor fields as a value. */
    function AcceptorView(): AcceptorState
      reads this
    {
      AcceptorState(highestAccepted, acceptedValue)
    }

    constructor (id: NodeId)
      ensures this.id == id && proposalNumber == 0
      ensures AcceptorView() == Init && fileContent == None
    {
      this.id := id;
      proposalNumber := 0;
      highestAccepted := -1;
      acceptedValue := None;
      fileContent := None;
    }

    /** The `"prepare"` branch of the request handler. */
    method HandlePrepare(n: int) returns (status: Status)
      modifies this`highestAccepted
      ensures (AcceptorView(), status) == OnPrepare(old(AcceptorView()), n)
    {
      if n > highestAccepted {
        highestAccepted := n;
        status := Promise;
      } else {
        status := Reject;
      }
    }

    /** The `"accept"` branch of the request handler. */
    method HandleAccept(n: int, v: Value) returns (status: Status)
      modifies this`highestAccepted, this`acceptedValue
      ensures (AcceptorView(), status) == OnAccept(old(AcceptorView()), n, v)
    {
      if n >= highestAccepted {
        highestAccepted := n;
        acceptedValue := Some(v);
        status := Accepted;
      } else {
        status := Reject;
      }
    }

    /** Phase 1: take the next proposal number and ask the peers to promise.
        Yields the new number when every collected reply is a promise; that
        number is at least 1, so it always reads as true to the caller. */
    method PrepareProposal(replies: seq<Option<Status>>) returns (round: Option<nat>)
      requires |replies| == N
      modifies this`proposalNumber
      ensures proposalNumber == old(proposalNumber) + 1
      ensures round == if AllPromised(Responses(replies, id)) then Some(proposalNumber) else None
      ensures round.Some? ==> round.value >= 1
    {
      proposalNumber := proposalNumber + 1;
      var responses := GatherResponses(replies, id);
      if AllPromised(responses) {
        round := Some(proposalNumber);
      } else {
        round := None;
      }
    }

    /** Phase 2: ask the peers to accept `newValue` and commit it to
        `fileContent` when more than `N / 2` of them accepted. */
    method AcceptProposal(newValue: Value, replies: seq<Option<Status>>) returns (committed: bool)
      requires |replies| == N
      modifies this`fileContent
      ensures committed == Commits(Responses(replies, id))
      ensures fileContent == if committed then Some(newValue) else old(fileContent)
    {
      var responses := GatherResponses(replies, id);
      if AcceptedCount(responses) > N / 2 {
        fileContent := Some(newValue);
        committed := true;
      } else {
        committed := false;
      }
    }

    /** The `"SubmitValue"` branch: Phase 1, then Phase 2 only if Phase 1
        passed. The node's own acceptor state is never touched. */
    method SubmitValue(value: Value, prepareReplies: seq<Option<Status>>, acceptReplies: seq<Option<Status>>)
      returns (outcome: Outcome, reply: string)
      requires |prepareReplies| == N && |acceptReplies| == N
      modifies this`proposalNumber, this`fileContent
      ensures proposalNumber == old(proposalNumber) + 1
      ensures outcome == Decide(id, prepareReplies, acceptReplies)
      ensures fileContent == if outcome == ConsensusAchieved then Some(value) else old(fileContent)
      ensures reply == OutcomeText(outcome)
    {
      var round := PrepareProposal(prepareReplies);
      // `handle_client` tests the returned number for truth: `None` and 0 are false
      if round.Some? && round.value != 0 {
        var committed := AcceptProposal(value, acceptReplies);
        outcome := if committed then ConsensusAchieved else ConsensusNotAchieved;
      } else {
        outcome := ProposalRejected;
      }
      reply := OutcomeText(outcome);
    }
  }
}
