/**
 * The hand-off of accepted connections from the acceptor thread to the router thread through one slot and one flag.
 * Every test, write and copy is a step of its own, and the two threads interleave in any way.
 */
module Handoff {
  /** The acceptor: test the flag; accept a connection; write the slot; raise the flag. */
  datatype Acceptor = Testing | Accepting | Holding(conn: int) | Stored(conn: int)

  /** The router: test the flag; copy the slot; lower the flag; serve the connection. */
  datatype Router = Polling | Copying | Lowering | Serving

  /** `accepted` and `taken` list the connections accept() has returned and the router has copied, in order. */
  datatype State = State(acceptor: Acceptor, router: Router, waiting: bool, slot: int,
                         accepted: seq<int>, taken: seq<int>)

  datatype Event = AcceptorStep(incoming: int) | RouterStep

  function Init(slot: int): State {
    State(Testing, Polling, false, slot, [], [])
  }

  function AcceptorNext(s: State, incoming: int): State {
    match s.acceptor
    case Testing => if s.waiting then s else s.(acceptor := Accepting)
    case Accepting => s.(acceptor := Holding(incoming), accepted := s.accepted + [incoming])
    case Holding(c) => s.(acceptor := Stored(c), slot := c)
    case Stored(_) => s.(acceptor := Testing, waiting := true)
  }

  function RouterNext(s: State): State {
    match s.router
    case Polling => if s.waiting then s.(router := Copying) else s
    case Copying => s.(router := Lowering, taken := s.taken + [s.slot])
    case Lowering => s.(router := Serving, waiting := false)
    case Serving => s.(router := Polling)
  }

  function Apply(s: State, e: Event): State {
    match e
    case AcceptorStep(incoming) => AcceptorNext(s, incoming)
    case RouterStep => RouterNext(s)
  }

  function Execute(slot: int, events: seq<Event>): State {
    if events == [] then Init(slot)
    else Apply(Execute(slot, events[..|events| - 1]), events[|events| - 1])
  }

  /** The connection accepted but not yet copied: at the acceptor, or in the slot under the raised flag. */
  function InTransit(s: State): seq<int> {
    match s.acceptor
    case Holding(c) => [c]
    case Stored(c) => [c]
    case _ => if s.waiting && s.router != Lowering then [s.slot] else []
  }

  ghost predicate Inv(s: State) {
    && s.accepted == s.taken + InTransit(s)
    && (s.waiting ==> s.acceptor == Testing)
    && (s.router == Copying || s.router == Lowering ==> s.waiting)
    && (s.acceptor.Stored? ==> s.slot == s.acceptor.conn)
  }

  lemma {:induction false} ReachableInv(slot: int, events: seq<Event>)
    ensures Inv(Execute(slot, events))
  {
    if events != [] {
      ReachableInv(slot, events[..|events| - 1]);
    }
  }

  /**
   * In every interleaving the connections accepted are those the router has taken, in the same order, followed by at
   * most one on its way: none is lost, taken twice or overtaken.
   */
  lemma Lossless(slot: int, events: seq<Event>)
    ensures var s := Execute(slot, events);
            s.accepted == s.taken || exists c :: s.accepted == s.taken + [c]
  {
    ReachableInv(slot, events);
    var s := Execute(slot, events);
    var rest := InTransit(s);
    if rest == [] {
      assert s.taken + rest == s.taken;
    } else {
      assert rest == [rest[0]];
    }
  }

  /** How many steps keep the connection on its way from the router. */
  function Distance(s: State): nat {
    (match s.acceptor case Holding(_) => 10 case Stored(_) => 5 case _ => 0)
    + (match s.router case Copying => 0 case Polling => 1 case Serving => 2 case Lowering => 3)
  }

  lemma OneMore(slot: int, events: seq<Event>, s: State, e: Event) returns (longer: seq<Event>, s': State)
    requires Execute(slot, events) == s
    ensures longer == events + [e] && s' == Apply(s, e) && Execute(slot, longer) == s'
  {
    longer, s' := events + [e], Apply(s, e);
    assert longer[..|longer| - 1] == events;
  }

  /** A connection on its way does reach the router: some further steps, accepting nothing new, take it there. */
  lemma {:induction false} Drains(slot: int, events: seq<Event>, s: State) returns (longer: seq<Event>, s': State)
    requires Execute(slot, events) == s && InTransit(s) != []
    ensures Execute(slot, longer) == s' && events <= longer
    ensures s'.taken == s.accepted && s'.accepted == s.accepted
    decreases Distance(s)
  {
    ReachableInv(slot, events);
    var e := if s.acceptor.Holding? || s.acceptor.Stored? then AcceptorStep(0) else RouterStep;
    longer, s' := OneMore(slot, events, s, e);
    if s.router != Copying {
      longer, s' := Drains(slot, longer, s');
    }
  }

  /** How many steps keep the acceptor from accepting when nothing is on its way. */
  function Waiting(s: State): nat {
    if s.acceptor == Accepting then 0 else if s.waiting then 2 else 1
  }

  lemma {:induction false} AcceptsWhenEmpty(slot: int, events: seq<Event>, s: State, conn: int)
    returns (longer: seq<Event>, s': State)
    requires Execute(slot, events) == s && InTransit(s) == []
    ensures Execute(slot, longer) == s' && events <= longer
    ensures s'.accepted == s.accepted + [conn] && InTransit(s') == [conn]
    decreases Waiting(s)
  {
    ReachableInv(slot, events);
    longer, s' := OneMore(slot, events, s, if s.waiting then RouterStep else AcceptorStep(conn));
    if s.acceptor != Accepting {
      longer, s' := AcceptsWhenEmpty(slot, longer, s', conn);
    }
  }

  /**
   * The hand-off never blocks: from any reachable state some further steps bring everything accepted so far to the
   * router, and after it any connection that comes in next.
   */
  lemma EveryConnectionGetsThrough(slot: int, events: seq<Event>, conn: int) returns (longer: seq<Event>, s': State)
    ensures Execute(slot, longer) == s' && events <= longer
    ensures s'.taken == Execute(slot, events).accepted + [conn]
  {
    longer, s' := events, Execute(slot, events);
    if InTransit(s') != [] {
      longer, s' := Drains(slot, longer, s');
      NothingInTransit(slot, longer, s');
    }
    longer, s' := AcceptsWhenEmpty(slot, longer, s', conn);
    longer, s' := Drains(slot, longer, s');
  }

  lemma NothingInTransit(slot: int, events: seq<Event>, s: State)
    requires Execute(slot, events) == s && s.accepted == s.taken
    ensures InTransit(s) == []
  {
    ReachableInv(slot, events);
    assert |s.accepted| == |s.taken| + |InTransit(s)|;
  }
}
