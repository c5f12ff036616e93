/** The acceptor side of a node: the `"prepare"` and `"accept"` branches of the
    request handler, each one atomic step over the node's `highest_accepted`
    number and `accepted_value`. */
module Acceptor {
  import opened Protocol

  /** The acceptor's part of a node: the highest proposal number it has
      promised or accepted, and the last value it accepted. */
  datatype AcceptorState = AcceptorState(highest: int, value: Option<Value>)

  /** State at start-up: no number seen (-1) and no value. */
  const Init: AcceptorState := AcceptorState(-1, None)

  /** A request an acceptor answers. */
  datatype Request = Prepare(round: int) | Accept(round: int, proposed: Value)

  /** Answer to `prepare(n)`: promise exactly for a strictly higher number,
      raising `highest` to it; a reject leaves the state as it was. */
  function OnPrepare(s: AcceptorState, n: int): (r: (AcceptorState, Status))
    ensures r.1 == Promise <==> n > s.highest
    ensures r.1 == Promise || r.1 == Reject
    ensures r.1 == Promise ==> r.0.highest == n
    ensures r.0.value == s.value
    ensures r.1 == Reject ==> r.0 == s
  {
    if n > s.highest then (s.(highest := n), Promise) else (s, Reject)
  }

  /** Answer to `accept(n, v)`: accepted exactly when `n` is at least the
      highest number seen, recording `n` and `v`; a reject changes nothing. */
  function OnAccept(s: AcceptorState, n: int, v: Value): (r: (AcceptorState, Status))
    ensures r.1 == Accepted <==> n >= s.highest
    ensures r.1 == Accepted || r.1 == Reject
    ensures r.1 == Accepted ==> r.0 == AcceptorState(n, Some(v))
    ensures r.1 == Reject ==> r.0 == s
  {
    if n >= s.highest then (AcceptorState(n, Some(v)), Accepted) else (s, Reject)
  }

  /** One atomic handler invocation: the dispatch on the message type. A
      reject leaves the state as it was; an affirmative answer moves
      `highest` to the request's number, which never lowers it. */
  function Handle(s: AcceptorState, req: Request): (r: (AcceptorState, Status))
    ensures r.1 == Reject ==> r.0 == s
    ensures r.1 != Reject ==> r.0.highest == req.round
    ensures r.0.highest >= s.highest
    ensures req.Prepare? ==> r.0.value == s.value
  {
    match req
    case Prepare(n) => OnPrepare(s, n)
    case Accept(n, v) => OnAccept(s, n, v)
  }

  /** The state after handling `reqs` one after another. Prepares alone never
      change the accepted value. */
  function Run(s: AcceptorState, reqs: seq<Request>): (t: AcceptorState)
    ensures (forall i :: 0 <= i < |reqs| ==> reqs[i].Prepare?) ==> t.value == s.value
    decreases |reqs|
  {
    if reqs == [] then s else Run(Handle(s, reqs[0]).0, reqs[1..])
  }

  /** No handler ever lowers `highest`. */
  lemma HandleNeverLowers(s: AcceptorState, req: Request)
    ensures Handle(s, req).0.highest >= s.highest
  {
  }

  /** `highest` never decreases over any sequence of prepare/accept requests. */
  lemma {:induction false} RunNeverLowers(s: AcceptorState, reqs: seq<Request>)
    ensures Run(s, reqs).highest >= s.highest
    decreases |reqs|
  {
    if reqs != [] {
      HandleNeverLowers(s, reqs[0]);
      RunNeverLowers(Handle(s, reqs[0]).0, reqs[1..]);
    }
  }

  /** Once `prepare(n)` has been promised, every later prepare or accept with a
      lower number is rejected, whatever was handled in between, and the
      rejection leaves the state unchanged. */
  lemma PromiseFencesLowerRounds(s: AcceptorState, n: int, between: seq<Request>, late: Request)
    requires OnPrepare(s, n).1 == Promise
    requires late.round < n
    ensures var t := Run(OnPrepare(s, n).0, between);
            Handle(t, late) == (t, Reject)
  {
    RunNeverLowers(OnPrepare(s, n).0, between);
  }

  /** An accepted `n` is a floor as well: once `accept(n, v)` succeeded, every
      later request numbered below `n` is rejected. */
  lemma AcceptFencesLowerRounds(s: AcceptorState, n: int, v: Value, between: seq<Request>, late: Request)
    requires OnAccept(s, n, v).1 == Accepted
    requires late.round < n
    ensures var t := Run(OnAccept(s, n, v).0, between);
            Handle(t, late) == (t, Reject)
  {
    RunNeverLowers(OnAccept(s, n, v).0, between);
  }

  /** The stored value never comes from nowhere: it is the initial one or the
      value of some accept request that was handled. */
  lemma {:induction false} RunValueWasProposed(s: AcceptorState, reqs: seq<Request>)
    ensures var t := Run(s, reqs);
            t.value == s.value
            || exists i :: 0 <= i < |reqs| && reqs[i].Accept? && t.value == Some(reqs[i].proposed)
    decreases |reqs|
  {
    if reqs != [] {
      var s1 := Handle(s, reqs[0]).0;
      RunValueWasProposed(s1, reqs[1..]);
      var t := Run(s, reqs);
      if t.value != s1.value {
        var i :| 0 <= i < |reqs[1..]| && reqs[1..][i].Accept? && t.value == Some(reqs[1..][i].proposed);
        assert reqs[i + 1] == reqs[1..][i];
      } else if s1.value != s.value {
        assert reqs[0].Accept? && t.value == Some(reqs[0].proposed);
      }
    }
  }

  /** Accepts are not exclusive per number: a second accept with the same
      number but another value is accepted too and overwrites the first. */
  lemma SameRoundOverwrites(s: AcceptorState, n: int, v1: Value, v2: Value)
    requires n >= s.highest
    ensures OnAccept(s, n, v1).1 == Accepted
    ensures OnAccept(OnAccept(s, n, v1).0, n, v2) == (AcceptorState(n, Some(v2)), Accepted)
  {
  }
}
