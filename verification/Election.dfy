/**
 * The ring election among the backups: n nodes, a FIFO link from each node to the next, and any
 * interleaving of "send the initial vote" and "read one packet".
 *
 * A link is kept as the log of everything ever written to it together with the number of packets
 * its reader has taken; what is in flight is the rest of the log.
 */
module Election {
  import opened Bytes
  import opened Packets
  import opened Rings
  import opened Voting
  import opened Wrappers

  /** Node i sends to node Next(i); `votes[i]` is the vote node i has prepared, its own address included. */
  datatype Ring = Ring(ids: seq<i32>, votes: seq<Packet>) {
    ghost predicate Valid() {
      && 2 <= |ids| == |votes|
      && (forall i :: 0 <= i < |ids| ==> VotesFor(votes[i], ids[i]))
      && forall i, j :: 0 <= i < j < |ids| ==> ids[i] != ids[j]
    }

    /** Position w holds the smallest id. */
    ghost predicate Smallest(w: nat) {
      w < |ids| && forall i :: 0 <= i < |ids| ==> ids[w] <= ids[i]
    }
  }

  /** The position k places before i. */
  function Back(n: nat, i: nat, k: nat): (j: nat)
    requires i < n && k <= n
    ensures j < n
  {
    if k <= i then i - k else i + n - k
  }

  /** The number of links from w to i. */
  function Dist(n: nat, w: nat, i: nat): (d: nat)
    requires w < n && i < n
    ensures d < n
  {
    if w <= i then i - w else i + n - w
  }

  // ------------------------------------------------------------------ the transition system

  datatype State = State(phase: seq<Phase>, sent: seq<seq<Packet>>, read: seq<nat>)

  datatype Event = SendInitial(i: nat) | Deliver(i: nat)

  ghost predicate Shape(ring: Ring, s: State) {
    |s.phase| == |s.sent| == |s.read| == |ring.ids|
  }

  function Init(ring: Ring): State {
    var n := |ring.ids|;
    State(seq(n, _ => Starting), seq(n, _ => []), seq(n, _ => 0))
  }

  predicate Enabled(ring: Ring, s: State, e: Event)
    requires Shape(ring, s)
  {
    e.i < |ring.ids| &&
    match e
    case SendInitial(i) => s.phase[i] == Starting
    case Deliver(i) => s.phase[i] == Voting && s.read[i] < |s.sent[Prev(|ring.ids|, i)]|
  }

  function Apply(ring: Ring, s: State, e: Event): (s': State)
    requires ring.Valid() && Shape(ring, s) && Enabled(ring, s, e)
    ensures Shape(ring, s')
  {
    var i := e.i;
    match e
    case SendInitial(_) =>
      State(s.phase[i := Voting], s.sent[i := s.sent[i] + [ring.votes[i]]], s.read)
    case Deliver(_) =>
      var p := s.sent[Prev(|ring.ids|, i)][s.read[i]];
      var read := s.read[i := s.read[i] + 1];
      match React(ring.ids[i], ring.votes[i], p)
      case Ignored => s.(read := read)
      case Answered(reply, next) => State(s.phase[i := next], s.sent[i := s.sent[i] + [reply]], read)
  }

  /** The state a schedule leads to from the start, if every event of it is possible when its turn comes. */
  function Execute(ring: Ring, events: seq<Event>): (r: Option<State>)
    requires ring.Valid()
    ensures r.Some? ==> Shape(ring, r.value)
  {
    if events == [] then Some(Init(ring))
    else
      match Execute(ring, events[..|events| - 1])
      case None => None
      case Some(s) =>
        var e := events[|events| - 1];
        if Enabled(ring, s, e) then Some(Apply(ring, s, e)) else None
  }

  // ------------------------------------------------------------------ smallest id of a window

  /** The position of the smallest id among the `len` positions ending at i. */
  function Best(ids: seq<i32>, i: nat, len: nat): (a: nat)
    requires i < |ids| && 1 <= len <= |ids|
    ensures a < |ids|
    decreases len
  {
    if len == 1 then i
    else
      var a := Best(ids, Prev(|ids|, i), len - 1);
      if ids[i] <= ids[a] then i else a
  }

  /** `Best` is one of the window's positions and no position of the window has a smaller id. */
  lemma {:induction false} BestIsLeast(ids: seq<i32>, i: nat, len: nat)
    requires i < |ids| && 1 <= len <= |ids|
    ensures exists k :: 0 <= k < len && Best(ids, i, len) == Back(|ids|, i, k)
    ensures forall k :: 0 <= k < len ==> ids[Best(ids, i, len)] <= ids[Back(|ids|, i, k)]
    decreases len
  {
    var n := |ids|;
    if len == 1 {
      assert Best(ids, i, len) == Back(n, i, 0);
    } else {
      BestIsLeast(ids, Prev(n, i), len - 1);
      assert forall k :: 1 <= k < len ==> Back(n, i, k) == Back(n, Prev(n, i), k - 1);
      var k :| 0 <= k < len - 1 && Best(ids, Prev(n, i), len - 1) == Back(n, Prev(n, i), k);
      assert Back(n, i, k + 1) == Back(n, Prev(n, i), k);
      assert Back(n, i, 0) == i;
    }
  }

  /** A window that stops short of position j does not name j. */
  lemma BestExcludes(ring: Ring, i: nat, len: nat, j: nat)
    requires ring.Valid() && i < |ring.ids| && j < |ring.ids|
    requires 1 <= len <= Dist(|ring.ids|, j, i)
    ensures ring.ids[Best(ring.ids, i, len)] != ring.ids[j]
  {
    BestIsLeast(ring.ids, i, len);
  }

  /** A window that reaches the smallest id names it. */
  lemma BestFindsSmallest(ring: Ring, w: nat, i: nat, len: nat)
    requires ring.Valid() && ring.Smallest(w) && i < |ring.ids|
    requires Dist(|ring.ids|, w, i) < len <= |ring.ids|
    ensures Best(ring.ids, i, len) == w
  {
    BestIsLeast(ring.ids, i, len);
    assert Back(|ring.ids|, i, Dist(|ring.ids|, w, i)) == w;
  }

  // ------------------------------------------------------------------ what every log contains

  function Min(a: nat, b: nat): nat {
    if a <= b then a else b
  }

  /**
   * The k-th packet node i ever writes, for w the position of the smallest id: votes for the smallest id seen
   * so far, then the winner's announcement, or, past the winner, the vote set off by the announcement.
   */
  function Stream(ring: Ring, w: nat, i: nat, k: nat): Packet
    requires ring.Valid() && w < |ring.ids| && i < |ring.ids|
    requires k <= |ring.ids| + Dist(|ring.ids|, w, i)
  {
    var n, d := |ring.ids|, Dist(|ring.ids|, w, i);
    if k < n + d then ring.votes[Best(ring.ids, i, Min(k + 1, n))]
    else if d == 0 then ring.votes[w].(seqn := 1)
    else ring.votes[Best(ring.ids, i, d)]
  }

  /** A vote carries its voter's id through the packet's unsigned field. */
  lemma ReactToVote(ring: Ring, i: nat, a: nat)
    requires ring.Valid() && i < |ring.ids| && a < |ring.ids|
    ensures React(ring.ids[i], ring.votes[i], ring.votes[a]) ==
            if i == a then Answered(ring.votes[i].(seqn := 1), Master)
            else Answered(ring.votes[if ring.ids[i] < ring.ids[a] then i else a], Voting)
  {
    assert i == a <==> ring.ids[i] == ring.ids[a];
  }

  /** The phase node i, at distance d past the smallest id, is in after answering its k-th packet. */
  function PhaseAfter(n: nat, d: nat, k: nat): Phase {
    if d == 0 && k == n then Master else if d == 1 && k == n + 1 then Relaunching else Voting
  }

  /** A window short of the whole ring grows by one position with every hop. */
  lemma VotePassesOn(ring: Ring, i: nat, len: nat)
    requires ring.Valid() && i < |ring.ids| && 1 <= len < |ring.ids|
    ensures React(ring.ids[i], ring.votes[i], ring.votes[Best(ring.ids, Prev(|ring.ids|, i), len)])
            == Answered(ring.votes[Best(ring.ids, i, len + 1)], Voting)
  {
    var a := Best(ring.ids, Prev(|ring.ids|, i), len);
    BestExcludes(ring, Prev(|ring.ids|, i), len, i);
    ReactToVote(ring, i, a);
  }

  /** The smallest id's vote, once round the ring, is passed on by everybody else and elects its own node. */
  lemma SmallestPassesOn(ring: Ring, w: nat, i: nat)
    requires ring.Valid() && ring.Smallest(w) && i < |ring.ids|
    ensures var n := |ring.ids|;
            && Best(ring.ids, Prev(n, i), n) == Best(ring.ids, i, n) == w
            && React(ring.ids[i], ring.votes[i], ring.votes[w])
               == if i == w then Answered(ring.votes[w].(seqn := 1), Master) else Answered(ring.votes[w], Voting)
  {
    BestFindsSmallest(ring, w, i, |ring.ids|);
    BestFindsSmallest(ring, w, Prev(|ring.ids|, i), |ring.ids|);
    ReactToVote(ring, i, w);
  }

  ghost predicate Follows(ring: Ring, w: nat, i: nat, r: nat)
    requires ring.Valid() && w < |ring.ids| && i < |ring.ids|
  {
    var n := |ring.ids|;
    && r <= n + Dist(n, w, Prev(n, i)) && r + 1 <= n + Dist(n, w, i)
    && React(ring.ids[i], ring.votes[i], Stream(ring, w, Prev(n, i), r))
       == Answered(Stream(ring, w, i, r + 1), PhaseAfter(n, Dist(n, w, i), r + 1))
  }

  lemma FirstLapFollows(ring: Ring, w: nat, i: nat, r: nat)
    requires ring.Valid() && ring.Smallest(w) && i < |ring.ids| && r + 1 < |ring.ids|
    ensures Follows(ring, w, i, r)
  {
    assert Stream(ring, w, Prev(|ring.ids|, i), r) == ring.votes[Best(ring.ids, Prev(|ring.ids|, i), r + 1)];
    assert Stream(ring, w, i, r + 1) == ring.votes[Best(ring.ids, i, r + 2)];
    VotePassesOn(ring, i, r + 1);
  }

  lemma SecondLapFollows(ring: Ring, w: nat, i: nat, r: nat)
    requires ring.Valid() && ring.Smallest(w) && i < |ring.ids| && r + 1 >= |ring.ids|
    requires r < |ring.ids| + Dist(|ring.ids|, w, Prev(|ring.ids|, i)) && (i == w ==> r < |ring.ids|)
    ensures Follows(ring, w, i, r)
  {
    SmallestPassesOn(ring, w, i);
    assert Stream(ring, w, Prev(|ring.ids|, i), r) == ring.votes[w];
    assert Stream(ring, w, i, r + 1) == if i == w then ring.votes[w].(seqn := 1) else ring.votes[w];
  }

  /** Past the votes: the winner's successor meets the announcement and answers with its own vote. */
  lemma SuccessorFollows(ring: Ring, w: nat, i: nat)
    requires ring.Valid() && ring.Smallest(w) && i < |ring.ids| && Dist(|ring.ids|, w, i) == 1
    ensures Follows(ring, w, i, |ring.ids|)
  {
    var n := |ring.ids|;
    assert Prev(n, i) == w;
    assert Stream(ring, w, w, n) == ring.votes[w].(seqn := 1);
    assert Stream(ring, w, i, n + 1) == ring.votes[Best(ring.ids, i, 1)] == ring.votes[i];
  }

  /** The others meet the vote this sets off. */
  lemma StrayFollows(ring: Ring, w: nat, i: nat)
    requires ring.Valid() && ring.Smallest(w) && i < |ring.ids| && Dist(|ring.ids|, w, i) > 1
    ensures Follows(ring, w, i, |ring.ids| + Dist(|ring.ids|, w, i) - 1)
  {
    var n, d := |ring.ids|, Dist(|ring.ids|, w, i);
    assert Dist(n, w, Prev(n, i)) == d - 1;
    VotePassesOn(ring, i, d - 1);
    assert Stream(ring, w, Prev(n, i), n + d - 1) == ring.votes[Best(ring.ids, Prev(n, i), d - 1)];
    assert Stream(ring, w, i, n + d) == ring.votes[Best(ring.ids, i, d)];
  }

  /** Node i answers the r-th packet of its predecessor with the (r+1)-th packet of its own. */
  lemma ReactionFollowsStream(ring: Ring, w: nat, i: nat, r: nat)
    requires ring.Valid() && ring.Smallest(w) && i < |ring.ids|
    requires r <= |ring.ids| + Dist(|ring.ids|, w, Prev(|ring.ids|, i))
    requires i == w ==> r < |ring.ids|
    ensures Follows(ring, w, i, r)
  {
    if r + 1 < |ring.ids| {
      FirstLapFollows(ring, w, i, r);
    } else if r < |ring.ids| + Dist(|ring.ids|, w, Prev(|ring.ids|, i)) {
      SecondLapFollows(ring, w, i, r);
    } else if Dist(|ring.ids|, w, i) == 1 {
      SuccessorFollows(ring, w, i);
    } else {
      StrayFollows(ring, w, i);
    }
  }

  /** Node i in phase `phase`, with its log and its reads, when its predecessor has written `arrived` packets. */
  ghost predicate NodeOk(ring: Ring, w: nat, i: nat, phase: Phase, sent: seq<Packet>, read: nat, arrived: nat)
    requires ring.Valid() && w < |ring.ids| && i < |ring.ids|
  {
    var n, d := |ring.ids|, Dist(|ring.ids|, w, i);
    && (phase == Starting ==> sent == [] && read == 0)
    && (phase != Starting ==> |sent| == read + 1)
    && read <= arrived
    && |sent| <= n + d + 1
    && (forall k :: 0 <= k < |sent| ==> sent[k] == Stream(ring, w, i, k))
    && (phase == Master <==> d == 0 && read == n)
    && (phase == Relaunching <==> d == 1 && read == n + 1)
  }

  ghost predicate NodeInv(ring: Ring, w: nat, s: State, i: nat)
    requires ring.Valid() && Shape(ring, s) && w < |ring.ids| && i < |ring.ids|
  {
    NodeOk(ring, w, i, s.phase[i], s.sent[i], s.read[i], |s.sent[Prev(|ring.ids|, i)]|)
  }

  ghost predicate Inv(ring: Ring, w: nat, s: State) {
    && ring.Valid() && ring.Smallest(w) && Shape(ring, s)
    && forall i :: 0 <= i < |ring.ids| ==> NodeInv(ring, w, s, i)
  }

  lemma InitInv(ring: Ring, w: nat)
    requires ring.Valid() && ring.Smallest(w)
    ensures Inv(ring, w, Init(ring))
  {
  }

  lemma DeliverOk(ring: Ring, w: nat, i: nat, sent: seq<Packet>, read: nat, arrived: nat)
    requires ring.Valid() && ring.Smallest(w) && i < |ring.ids|
    requires NodeOk(ring, w, i, Voting, sent, read, arrived) && read < arrived
    requires arrived <= |ring.ids| + Dist(|ring.ids|, w, Prev(|ring.ids|, i)) + 1
    ensures Follows(ring, w, i, read)
    ensures NodeOk(ring, w, i, PhaseAfter(|ring.ids|, Dist(|ring.ids|, w, i), read + 1),
                   sent + [Stream(ring, w, i, read + 1)], read + 1, arrived)
  {
    ReactionFollowsStream(ring, w, i, read);
  }

  /** The node that moves keeps its own part of the invariant. */
  lemma MoverInv(ring: Ring, w: nat, s: State, e: Event)
    requires Inv(ring, w, s) && Enabled(ring, s, e)
    ensures NodeInv(ring, w, Apply(ring, s, e), e.i)
  {
    var h := Prev(|ring.ids|, e.i);
    assert NodeInv(ring, w, s, e.i) && NodeInv(ring, w, s, h);
    if e.Deliver? {
      DeliverOk(ring, w, e.i, s.sent[e.i], s.read[e.i], |s.sent[h]|);
      assert s.sent[h][s.read[e.i]] == Stream(ring, w, h, s.read[e.i]);
    }
  }

  lemma ApplyInv(ring: Ring, w: nat, s: State, e: Event)
    requires Inv(ring, w, s) && Enabled(ring, s, e)
    ensures Inv(ring, w, Apply(ring, s, e))
  {
    MoverInv(ring, w, s, e);
    var s' := Apply(ring, s, e);
    forall j | 0 <= j < |ring.ids| && j != e.i
      ensures NodeInv(ring, w, s', j)
    {
      assert NodeInv(ring, w, s, j);
      assert |s.sent[Prev(|ring.ids|, j)]| <= |s'.sent[Prev(|ring.ids|, j)]|;
    }
  }

  /** Every state any schedule leads to satisfies the invariant. */
  lemma {:induction false} ReachableInv(ring: Ring, w: nat, events: seq<Event>)
    requires ring.Valid() && ring.Smallest(w) && Execute(ring, events).Some?
    ensures Inv(ring, w, Execute(ring, events).value)
  {
    if events == [] {
      InitInv(ring, w);
    } else {
      var before := events[..|events| - 1];
      ReachableInv(ring, w, before);
      ApplyInv(ring, w, Execute(ring, before).value, events[|events| - 1]);
    }
  }
}
