/** Shared vocabulary of the Paxos server: the membership size, node indices,
    the values being agreed on and the status field of a peer's reply. */
module Protocol {

  /** Number of entries in the static membership table `NODES`. */
  const N: nat := 3

  /** Position of a node in the membership table. */
  type NodeId = i: nat | i < N

  /** A value a client submits (the client sends the text it reads). */
  type Value = string

  datatype Option<T> = None | Some(value: T)

  /** The `"status"` field of a reply from a peer's acceptor:
      `"promise"`, `"accepted"` or `"reject"`. */
  datatype Status = Promise | Accepted | Reject
}
