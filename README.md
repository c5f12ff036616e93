# Paxos server: acceptor and proposer decision logic

A model of the consensus core of a three-node Paxos server. Each server is
both an acceptor and a proposer. A client sends `SubmitValue` to one node.
That node runs Phase 1 (prepare/promise) and then Phase 2 (accept/accepted)
against the other two nodes, and replies with "Proposal rejected.",
"Consensus not achieved." or "Consensus achieved: value stored successfully.".

The model keeps what the code does, not textbook single-decree Paxos:

- a proposer contacts only the other nodes, never itself;
- a promise carries no previously accepted value, so there is no adoption rule;
- proposal numbers are a bare per-node counter, so two nodes can use the same number;
- Phase 1 passes when every reply collected is a promise, so it also passes when no reply was collected;
- Phase 2 commits when more than `3 // 2 = 1` replies are "accepted", which means both peers.

Single-decree Paxos as Lamport describes it in "Paxos Made Simple" has
three things this code lacks:

- the proposer's own acceptor votes in the majority;
- a promise reports the highest-numbered proposal the acceptor has accepted, and the proposer must adopt that value;
- proposal numbers are unique across proposers.

This model follows the code. `Cluster.DivergentCommits` shows the result:
two nodes can commit different values.

Modules:

- `Protocol` (protocol.dfy): the membership size `N = 3`, node indices, values, and the status of a reply.
- `Acceptor` (acceptor.dfy): the prepare and accept handlers as step functions over `(highest_accepted, accepted_value)`. `Run` folds a sequence of requests. The lemmas cover monotonicity, fencing of lower numbers and where the stored value came from.
- `Quorum` (quorum.dfy): the loop that collects peer replies, skipping the proposer and unreachable peers. It also holds the Phase 1 test (`all(...)`) and the Phase 2 test (`sum(...) > len(NODES) // 2`), with lemmas that restate each test in terms of the peers' replies.
- `Server` (server.dfy): class `Node`. Its fields are the module globals `proposal_number`, `highest_accepted`, `accepted_value` and `file_content`. Its methods are the handlers `prepare_proposal`, `accept_proposal` and `SubmitValue`. Each method is proved against the step functions and quorum tests above. `Decide` gives the three-way outcome.
- `Cluster` (cluster.dfy): three nodes as values. One whole `SubmitValue` attempt runs against the peers' acceptors; the peers in a given set answer and the others refuse the connection. It holds the end-to-end scenarios.

Peer replies are inputs: `replies[i]` is node `i`'s reply, and `None` means the
connection was refused. The entry at the proposer's own index is ignored, as
the loop skips it.

## Model

| member | source | states |
|---|---|---|
| Acceptor.OnPrepare | server.py:95-101 | A prepare is promised exactly when its number is strictly above `highest_accepted`. A promise raises `highest_accepted` to that number and keeps the value. A reject leaves the state unchanged. |
| Acceptor.OnAccept | server.py:104-111 | An accept succeeds exactly when its number is at least `highest_accepted`. Success records the number and the value. A reject leaves the state unchanged. |
| Acceptor.Handle | server.py:95-112 | One dispatch on the message type. A reject leaves the state unchanged. A promise or an accept moves `highest_accepted` to the request's number, which never lowers it. A prepare never changes `accepted_value`. |
| Acceptor.Run | server.py:95-112 | The acceptor state after a sequence of requests. If every request is a prepare, `accepted_value` is unchanged. |
| Acceptor.RunNeverLowers | server.py:95-111 | Over any sequence of prepare and accept requests, `highest_accepted` never decreases. |
| Acceptor.PromiseFencesLowerRounds | server.py:97-107 | After prepare(n) is promised, whatever comes in between, every later prepare or accept numbered below n is rejected and changes nothing. |
| Acceptor.AcceptFencesLowerRounds | server.py:104-111 | After accept(n, v) succeeds, every later request numbered below n is rejected and changes nothing. |
| Acceptor.RunValueWasProposed | server.py:104-108 | The stored `accepted_value` is the initial one or the value of some accept request that was handled. |
| Acceptor.SameRoundOverwrites | server.py:106-108 | Two accepts with the same number and different values are both accepted, and the second overwrites the first. |
| Quorum.AllPromised | server.py:55-56 | The Phase 1 test holds of an empty response list. It fails exactly when an "accepted" or a "reject" response is present. |
| Quorum.AcceptedCount | server.py:81 | The number of "accepted" responses is at most the number of responses. It is zero exactly when no response is "accepted". |
| Quorum.Commits | server.py:80-81 | Passing the Phase 2 test `> len(NODES) // 2` takes at least two responses, at least one of them "accepted". |
| Quorum.GatherResponses | server.py:40-53 | The collection loop yields the replies of the reachable peers in table order. It skips the proposer itself and every refused connection. The accept phase runs the same loop (server.py:62-78). |
| Quorum.ResponsesAtMostPeers | server.py:42-44 | A phase collects at most `N - 1` responses, because the proposer skips itself. |
| Quorum.PhaseOneIff | server.py:55-58 | Phase 1 passes exactly when every peer that answered sent a promise. Unreachable peers do not count against it. |
| Quorum.NoPeerReachablePassesPhaseOne | server.py:52-56 | With every peer unreachable, nothing is collected and Phase 1 passes. |
| Quorum.CommitsIffAllPeersAccept | server.py:80-81 | Phase 2 commits exactly when every peer answered "accepted". With three nodes, `> len(NODES) // 2` needs both peers. |
| Server.Decide | server.py:119-125 | "Proposal rejected." exactly when Phase 1 fails. "Consensus achieved." only when Phase 1 passed and Phase 2 committed. "Consensus not achieved." only when Phase 2 did not commit. |
| Server.DecideByPeerReplies | server.py:114-125 | The result is "rejected" exactly when some peer answered the prepare with something other than a promise. It is "achieved" exactly when, in addition, every peer answered the accept with "accepted". |
| Server.UnreachablePeerPreventsConsensus | server.py:63-81 | If one peer is unreachable in Phase 2, there is no consensus. |
| Server.Node.constructor | server.py:12-16 | Initial state: counter 0, `highest_accepted` -1, no accepted value, no file content. |
| Server.Node.HandlePrepare | server.py:95-102 | The prepare branch updates the acceptor fields and answers as `OnPrepare` does. No other field changes. |
| Server.Node.HandleAccept | server.py:104-112 | The accept branch updates the acceptor fields and answers as `OnAccept` does. No other field changes. |
| Server.Node.PrepareProposal | server.py:37-58 | The counter goes up by exactly 1. The result is the new counter when every collected reply is a promise, and none otherwise. A returned number is at least 1, so it always tests true. |
| Server.Node.AcceptProposal | server.py:61-87 | It commits exactly when more than `N / 2` collected replies are "accepted". A commit sets `file_content` to the new value; otherwise `file_content` is unchanged. |
| Server.Node.SubmitValue | server.py:114-125 | The outcome is `Decide` of the two phases. The counter goes up by 1. `file_content` is set only on "achieved". The reply sent to the client is the text for that outcome. The node's own acceptor fields are outside the frame, so they never change. |
| Cluster.Submit | server.py:114-125 | One whole attempt on node p over the three servers. p's counter goes up by 1. p's own acceptor is unchanged. p's file content becomes the value exactly on "achieved"; otherwise it is unchanged. |
| Cluster.SubmitFrame | server.py:37-125 | A whole attempt on node p reports what `Decide` says for the replies the peers actually gave. It bumps only p's counter and never touches p's own acceptor. It lowers no acceptor's number, and it changes the file content of p only. |
| Cluster.RejectedAttemptAcceptsNothing | server.py:119-125 | When Phase 1 fails, Phase 2 is not attempted: no acceptor's value changes. |
| Cluster.PeerDownNoConsensus | server.py:63-81 | If a peer is down for the attempt, the attempt cannot reach consensus, although two of the three nodes are up. |
| Cluster.PrepareAbovePeers | server.py:37-58 | In Phase 1 with every node up and a number above every peer's highest, both peers promise and Phase 1 passes. Both peers move to that number. |
| Cluster.AcceptAtPeers | server.py:61-87 | In Phase 2 with every node up and no peer above the number, both peers accept and the proposer commits. Both peers record the number and the value. |
| Cluster.SucceedsAbovePeers | server.py:114-125 | With every node up, an attempt whose new number is above every peer's highest reaches consensus. The proposer commits the value, and both peers hold the number and the value. |
| Cluster.NeverNotAchievedAllUp | server.py:114-125 | With every node up and one attempt at a time, "Consensus not achieved." never happens: a Phase 1 that passed means both peers promised the number, so both accept it. |
| Cluster.RejectedRetryProgress | server.py:37-58 | A rejected attempt still bumps the proposer's counter by 1. Each peer keeps its number or moves to the proposer's new number. |
| Cluster.PromisedOnlyBelow | server.py:55-58 | With every node up, Phase 1 passes only when every peer was below the number. |
| Cluster.RetrySucceeds | server.py:114-125 | With every node up, a client that resubmits after each "Proposal rejected." reaches consensus. If no peer's number exceeds the proposer's counter by more than k, at most k + 1 attempts are needed. |
| Cluster.FirstAttemptSucceeds | server.py:37-125 | On fresh servers with all nodes up, the first attempt reaches consensus with number 1. |
| Cluster.DivergentCommits | server.py:37-125 | Attempts run one after another with all nodes up. Node 0 commits "a". Node 1's first attempt reuses number 1 and is rejected. Its retry commits "b". The two nodes end with different file contents. |

## Left out

- Sockets, the listen/accept loop, connect/send/recv and JSON encoding and decoding are I/O. Peer replies are modelled as an input list of optional statuses.
- Failures other than a refused connection are left out; the model has no path for them:
  - A peer that accepts the connection but never answers blocks the proposer forever. No socket timeout is set (server.py:46-50, 67-75), so the client never gets a reply.
  - A malformed reply makes `json.loads` raise an exception that nothing catches (server.py:51, 76). That exception ends the handling thread without a reply.
  - A message with an unknown type matches no branch. The connection is closed without a reply (server.py:127).
  - A reply whose status is not one of the three statuses is not modelled.
- Cluster.Submit: runs one whole attempt as a single atomic step, so attempts by different proposers never interleave in the cluster model. That interleaving is the race the random delay at server.py:115-116 provokes. With every node up it is the only way to get "Consensus not achieved.": A prepares n, B prepares m > n, and then A's accept is rejected. The `Acceptor.Run` lemmas do cover any interleaving of requests at a single acceptor.
- Threads and the lock are left out; each handler call is one atomic step. The model therefore does not capture two `SubmitValue` requests on the same node running at once. `accept_proposal` sends the global `proposal_number` (server.py:71), so such a concurrent request could change the number sent in Phase 2. In the model, Phase 2 always uses the number Phase 1 just took.
- The random delay before a submission (server.py:116) is left out. It only makes races more likely.
- Start-up and configuration are left out: reading the node id, the port and the address table. Only `N = 3` and the node's own index remain. The own index is found by comparing ports in the code; the model compares indices, which is the same thing because the ports are distinct.
- Logging is left out.
- client.py is not part of this model. It only sends one `SubmitValue` message.
- Values are strings, the text the client sends. Other JSON value types are not modelled; nothing in the core inspects the value.
- The `proposal_number` field that a promise reply carries is left out, because no code reads it.
- The code has two copies of the collection loop, one per phase, differing only in the message sent. Once I/O is abstracted the two are identical, so both phases share one method, `GatherResponses`.
