/**
 * The join protocol: the master numbers the backups in join order and tells each one its ring neighbour.
 * One JOIN_REQ is one step of the master; its replies travel on a FIFO link per backup.
 */
module Joining {
  import opened Bytes
  import opened Packets
  import opened Addresses
  import opened Rings
  import opened Wrappers

  /** A host text without separator or terminator, and a port that htons keeps. */
  predicate ValidPeer(p: Peer) {
    p.ip != [] && ':' !in p.ip && '\0' !in p.ip && 0 <= p.port < TWO_16
  }

  function JoinRequest(p: Peer): Packet {
    BuildPacket(JOIN_REQ, 0, 1, Render(p))
  }

  function JoinReply(p: Peer): Packet {
    BuildPacket(JOIN_RESP, 0, 1, Render(p))
  }

  function IdReply(id: nat, p: Peer): Packet
    requires id < TWO_32
  {
    BuildPacket(YOUR_ID_RESP, 0, id, p.ip)
  }

  datatype Letter = Letter(to: nat, p: Packet)

  /** The peer the master reads out of a join request. */
  function Joiner(request: Packet): Parsed {
    ParseFirst(Text(request))
  }

  /** What the master writes once the newcomer stands last in `others`, and on which connection. */
  function JoinReplies(others: seq<Peer>): (out: seq<Letter>)
    requires 0 < |others| < TWO_32
    ensures forall k :: 0 <= k < |out| ==> out[k].to < |others|
  {
    var last := |others| - 1;
    (if last > 0 then [Letter(last - 1, JoinReply(others[last])), Letter(last, JoinReply(others[0]))] else [])
    + [Letter(last, IdReply(last, others[last]))]
  }

  /** Requests and replies are read back as the peer they were made from. */
  lemma JoinTextRoundTrip(p: Peer)
    requires ValidPeer(p)
    ensures Joiner(JoinRequest(p)) == ParseFirst(Text(JoinReply(p))) == Parsed(p)
  {
    assert '\0' !in ToString(p.port);
    TextOfBuilt(JOIN_REQ, 0, 1, Render(p));
    TextOfBuilt(JOIN_RESP, 0, 1, Render(p));
    AddressRoundTrip(p);
  }

  // ------------------------------------------------------------------ a backup

  /** Where a backup reads from: main reads one or two replies, then the keepalive loop takes over. */
  datatype Stage = FirstReply | SecondReply | Tracking | Crashed

  datatype Backup = Backup(stage: Stage, id: i32, ip: bytes, adjacent: Peer)

  const NO_PEER := Peer([], 0)

  function Fresh(): Backup {
    Backup(FirstReply, 0, [], NO_PEER)
  }

  function SetAdjacent(b: Backup, p: Packet, next: Stage): Backup {
    match ParseFirst(Text(p))
    case Parsed(peer) => b.(adjacent := peer, stage := next)
    case Thrown => b.(stage := Crashed)
  }

  function SetIdentity(b: Backup, p: Packet): Backup {
    if p.ptype == YOUR_ID_RESP then b.(id := ToI32(p.total), ip := Text(p), stage := Tracking)
    else b.(stage := Tracking)
  }

  function Receive(b: Backup, p: Packet): Backup {
    match b.stage
    case FirstReply => if p.ptype == JOIN_RESP then SetAdjacent(b, p, SecondReply) else SetIdentity(b, p)
    case SecondReply => SetIdentity(b, p)
    case Tracking => if p.ptype == JOIN_RESP then SetAdjacent(b, p, Tracking) else b
    case Crashed => b
  }

  /** A JOIN_RESP read by the keepalive loop moves the neighbour and nothing else. */
  lemma ReceiveNotice(b: Backup, p: Peer)
    requires ValidPeer(p) && b.stage == Tracking
    ensures Receive(b, JoinReply(p)) == b.(adjacent := p)
  {
    JoinTextRoundTrip(p);
  }

  /** The two replies main reads itself. */
  lemma ReceiveFirst(p: Peer)
    requires ValidPeer(p)
    ensures Receive(Fresh(), JoinReply(p)) == Fresh().(stage := SecondReply, adjacent := p)
  {
    JoinTextRoundTrip(p);
  }

  lemma ReceiveIdentity(b: Backup, id: nat, p: Peer)
    requires ValidPeer(p) && (b.stage == FirstReply || b.stage == SecondReply) && id < TWO_31
    ensures Receive(b, IdReply(id, p)) == b.(stage := Tracking, id := id, ip := p.ip)
  {
    TextOfBuilt(YOUR_ID_RESP, 0, id, p.ip);
  }

  function ReceiveAll(b: Backup, ps: seq<Packet>): Backup
    decreases |ps|
  {
    if ps == [] then b else ReceiveAll(Receive(b, ps[0]), ps[1..])
  }

  lemma {:induction false} ReceiveAllAppend(b: Backup, ps: seq<Packet>, p: Packet)
    ensures ReceiveAll(b, ps + [p]) == Receive(ReceiveAll(b, ps), p)
    decreases |ps|
  {
    if ps == [] {
      assert [] + [p] == [p];
    } else {
      assert (ps + [p])[1..] == ps[1..] + [p];
      ReceiveAllAppend(Receive(b, ps[0]), ps[1..], p);
    }
  }

  // ------------------------------------------------------------------ the transition system

  datatype State = State(others: seq<Peer>, links: seq<seq<Packet>>, read: seq<nat>, backups: seq<Backup>)

  datatype Event = Join(peer: Peer) | Deliver(i: nat)

  ghost predicate Shape(s: State) {
    && |s.others| == |s.links| == |s.read| == |s.backups|
    && forall i :: 0 <= i < |s.links| ==> s.read[i] <= |s.links[i]|
  }

  const INIT := State([], [], [], [])

  predicate Enabled(s: State, e: Event)
    requires Shape(s)
  {
    match e
    case Join(peer) => ValidPeer(peer) && Joiner(JoinRequest(peer)).Parsed? && |s.others| + 1 < TWO_31
    case Deliver(i) => i < |s.links| && s.read[i] < |s.links[i]|
  }

  function Post(links: seq<seq<Packet>>, letters: seq<Letter>): (r: seq<seq<Packet>>)
    requires forall k :: 0 <= k < |letters| ==> letters[k].to < |links|
    ensures |r| == |links|
    ensures forall i :: 0 <= i < |links| ==> |links[i]| <= |r[i]|
    decreases |letters|
  {
    if letters == [] then links
    else
      var l := letters[0];
      Post(links[l.to := links[l.to] + [l.p]], letters[1..])
  }

  function Apply(s: State, e: Event): (s': State)
    requires Shape(s) && Enabled(s, e)
    ensures Shape(s')
  {
    match e
    case Join(peer) =>
      var others := s.others + [Joiner(JoinRequest(peer)).peer];
      State(others, Post(s.links + [[]], JoinReplies(others)), s.read + [0], s.backups + [Fresh()])
    case Deliver(i) =>
      s.(read := s.read[i := s.read[i] + 1],
         backups := s.backups[i := Receive(s.backups[i], s.links[i][s.read[i]])])
  }

  function Execute(events: seq<Event>): (r: Option<State>)
    ensures r.Some? ==> Shape(r.value)
  {
    if events == [] then Some(INIT)
    else
      match Execute(events[..|events| - 1])
      case None => None
      case Some(s) => if Enabled(s, events[|events| - 1]) then Some(Apply(s, events[|events| - 1])) else None
  }

  // ------------------------------------------------------------------ ring formation

  /** What backup i is told in all: its join index, its own host, and the next backup of the cycle. */
  function Settled(others: seq<Peer>, i: nat): Backup
    requires i < |others| < TWO_31
  {
    Backup(Tracking, i, others[i].ip, if |others| == 1 then NO_PEER else others[Next(|others|, i)])
  }

  function PendingFor(s: State, i: nat): seq<Packet>
    requires Shape(s) && i < |s.links|
  {
    s.links[i][s.read[i]..]
  }

  /** Whatever a backup believes now, the replies still on its way settle it. */
  ghost predicate Inv(s: State) {
    && Shape(s) && |s.others| < TWO_31
    && (forall i :: 0 <= i < |s.others| ==> ValidPeer(s.others[i]))
    && (forall i :: 0 <= i < |s.others| ==> ReceiveAll(s.backups[i], PendingFor(s, i)) == Settled(s.others, i))
  }

  lemma DeliverInv(s: State, i: nat)
    requires Inv(s) && Enabled(s, Deliver(i))
    ensures Inv(Apply(s, Deliver(i)))
  {
    var s' := Apply(s, Deliver(i));
    assert PendingFor(s', i) == PendingFor(s, i)[1..];
    forall j | 0 <= j < |s.others| && j != i
      ensures ReceiveAll(s'.backups[j], PendingFor(s', j)) == Settled(s.others, j)
    {
      assert PendingFor(s', j) == PendingFor(s, j);
    }
  }

  lemma PostOne(links: seq<seq<Packet>>, l: Letter)
    requires l.to < |links|
    ensures Post(links, [l]) == links[l.to := links[l.to] + [l.p]]
  {
    assert [l][1..] == [];
  }

  lemma PostThree(links: seq<seq<Packet>>, m: nat, a: Packet, b: Packet, c: Packet)
    requires 0 < m == |links| - 1
    ensures Post(links, [Letter(m - 1, a), Letter(m, b), Letter(m, c)])
            == links[m - 1 := links[m - 1] + [a]][m := links[m] + [b] + [c]]
  {
    var links1 := links[m - 1 := links[m - 1] + [a]];
    var links2 := links1[m := links1[m] + [b]];
    var la, lb, lc := Letter(m - 1, a), Letter(m, b), Letter(m, c);
    assert [la, lb, lc][1..] == [lb, lc] && [lb, lc][1..] == [lc];
    PostOne(links2, lc);
    assert links2[m := links2[m] + [c]] == links1[m := links[m] + [b] + [c]];
  }

  /** The links after a join: the newcomer's replies on its own link, one notice to the backup before it. */
  lemma JoinLinks(s: State, peer: Peer)
    requires Shape(s) && Enabled(s, Join(peer))
    ensures var m, s' := |s.others|, Apply(s, Join(peer));
            && s'.others == s.others + [peer]
            && s'.links[m] == (if m == 0 then [] else [JoinReply(s'.others[0])]) + [IdReply(m, peer)]
            && forall i :: 0 <= i < m ==>
                 s'.links[i] == s.links[i] + (if i == m - 1 then [JoinReply(peer)] else [])
  {
    JoinTextRoundTrip(peer);
    var m, others, links := |s.others|, s.others + [peer], s.links + [[]];
    if m == 0 {
      assert JoinReplies(others) == [Letter(m, IdReply(m, peer))];
      PostOne(links, Letter(m, IdReply(m, peer)));
    } else {
      assert JoinReplies(others)
          == [Letter(m - 1, JoinReply(peer)), Letter(m, JoinReply(others[0])), Letter(m, IdReply(m, peer))];
      PostThree(links, m, JoinReply(peer), JoinReply(others[0]), IdReply(m, peer));
    }
  }

  lemma NewcomerSettles(others: seq<Peer>, link: seq<Packet>)
    requires 0 < |others| < TWO_31 && ValidPeer(others[0]) && ValidPeer(others[|others| - 1])
    requires var m := |others| - 1;
             link == (if m == 0 then [] else [JoinReply(others[0])]) + [IdReply(m, others[m])]
    ensures ReceiveAll(Fresh(), link) == Settled(others, |others| - 1)
  {
    var m := |others| - 1;
    var first := if m == 0 then [] else [JoinReply(others[0])];
    ReceiveAllAppend(Fresh(), first, IdReply(m, others[m]));
    ReceiveFirst(others[0]);
    if m > 0 { assert first[1..] == []; }
    ReceiveIdentity(ReceiveAll(Fresh(), first), m, others[m]);
  }

  /** A backup that was there before the join is settled by its pending replies, old and new. */
  lemma VeteranSettles(s: State, peer: Peer, i: nat)
    requires Inv(s) && Enabled(s, Join(peer)) && i < |s.others|
    ensures var s' := Apply(s, Join(peer));
            ReceiveAll(s'.backups[i], PendingFor(s', i)) == Settled(s.others + [peer], i)
  {
    var m, s' := |s.others|, Apply(s, Join(peer));
    JoinLinks(s, peer);
    if i == m - 1 {
      assert PendingFor(s', i) == PendingFor(s, i) + [JoinReply(peer)];
      ReceiveAllAppend(s.backups[i], PendingFor(s, i), JoinReply(peer));
      ReceiveNotice(Settled(s.others, i), peer);
    } else {
      assert PendingFor(s', i) == PendingFor(s, i);
    }
  }

  lemma NewcomerInv(s: State, peer: Peer)
    requires Shape(s) && Enabled(s, Join(peer)) && (|s.others| > 0 ==> ValidPeer(s.others[0]))
    ensures var m, s' := |s.others|, Apply(s, Join(peer));
            ReceiveAll(s'.backups[m], PendingFor(s', m)) == Settled(s.others + [peer], m)
  {
    var m, s' := |s.others|, Apply(s, Join(peer));
    JoinLinks(s, peer);
    NewcomerSettles(s'.others, s'.links[m]);
    assert PendingFor(s', m) == s'.links[m];
  }

  lemma JoinInv(s: State, peer: Peer)
    requires Inv(s) && Enabled(s, Join(peer))
    ensures Inv(Apply(s, Join(peer)))
  {
    var m, s' := |s.others|, Apply(s, Join(peer));
    JoinLinks(s, peer);
    assert |s.others| > 0 ==> ValidPeer(s.others[0]);
    NewcomerInv(s, peer);
    forall i | 0 <= i < m
      ensures ReceiveAll(s'.backups[i], PendingFor(s', i)) == Settled(s'.others, i)
    {
      VeteranSettles(s, peer, i);
    }
  }

  lemma {:induction false} ReachableInv(events: seq<Event>)
    requires Execute(events).Some?
    ensures Inv(Execute(events).value)
  {
    if events != [] {
      var before, e := events[..|events| - 1], events[|events| - 1];
      ReachableInv(before);
      match e
      case Join(peer) => JoinInv(Execute(before).value, peer);
      case Deliver(i) => DeliverInv(Execute(before).value, i);
    }
  }

  predicate Drained(s: State)
    requires Shape(s)
  {
    forall i :: 0 <= i < |s.links| ==> s.read[i] == |s.links[i]|
  }

  lemma NextIsMod(m: nat, i: nat)
    requires i < m
    ensures (i + 1) % m == Next(m, i)
  {
    if i + 1 < m {
      assert (i + 1) / m == 0;
    }
  }

  lemma SettledWhenDrained(s: State, i: nat)
    requires Inv(s) && Drained(s) && i < |s.others|
    ensures s.backups[i] == Settled(s.others, i)
    ensures |s.others| >= 2 ==> s.backups[i].adjacent == s.others[(i + 1) % |s.others|]
    ensures forall j :: 0 <= j < |s.others| ==> ValidPeer(s.others[j])
  {
    assert PendingFor(s, i) == [];
    NextIsMod(|s.others|, i);
  }

  /**
   * After any joins and any order of delivery, once the links are drained: backup i has id i, the only
   * backup has no neighbour, and two or more form the cycle i -> (i + 1) mod m.
   */
  lemma RingForms(events: seq<Event>, i: nat)
    requires Execute(events).Some? && Drained(Execute(events).value) && i < |Execute(events).value.others|
    ensures var s, m := Execute(events).value, |Execute(events).value.others|;
            && s.backups[i].stage == Tracking && s.backups[i].id == i
            && s.backups[i].ip == s.others[i].ip
            && (m == 1 ==> s.backups[i].adjacent == NO_PEER)
            && (m >= 2 ==> s.backups[i].adjacent == s.others[(i + 1) % m] && s.backups[i].adjacent.ip != [])
  {
    ReachableInv(events);
    SettledWhenDrained(Execute(events).value, i);
  }

  function Joins(events: seq<Event>): seq<Peer> {
    if events == [] then []
    else Joins(events[..|events| - 1])
         + (match events[|events| - 1] case Join(p) => [p] case Deliver(_) => [])
  }

  /** The master's list is the list of those who joined, in the order in which they did. */
  lemma {:induction false} OthersInJoinOrder(events: seq<Event>)
    requires Execute(events).Some?
    ensures Execute(events).value.others == Joins(events)
  {
    if events != [] {
      var before, e := events[..|events| - 1], events[|events| - 1];
      OthersInJoinOrder(before);
      ReachableInv(before);
      if e.Join? {
        JoinLinks(Execute(before).value, e.peer);
      }
    }
  }

  // ------------------------------------------------------------------ the links can always be drained

  function Undelivered(s: State, i: nat): nat
    requires Shape(s) && i < |s.links|
  {
    |s.links[i]| - s.read[i]
  }

  lemma {:induction false} DrainsOne(events: seq<Event>, i: nat) returns (more: seq<Event>)
    requires Execute(events).Some? && i < |Execute(events).value.links|
    ensures forall k :: 0 <= k < |more| ==> more[k] == Deliver(i)
    ensures Execute(events + more).Some?
    ensures var s, s' := Execute(events).value, Execute(events + more).value;
            && s'.others == s.others && s'.links == s.links && Undelivered(s', i) == 0
            && forall j :: 0 <= j < |s.links| && j != i ==> s'.read[j] == s.read[j]
    decreases Undelivered(Execute(events).value, i)
  {
    var s := Execute(events).value;
    if Undelivered(s, i) == 0 {
      more := [];
      assert events + more == events;
    } else {
      var longer := events + [Deliver(i)];
      assert longer[..|events|] == events;
      var rest := DrainsOne(longer, i);
      more := [Deliver(i)] + rest;
      assert events + more == longer + rest;
    }
  }

  lemma {:induction false} DrainsUpTo(events: seq<Event>, n: nat) returns (more: seq<Event>)
    requires Execute(events).Some? && n <= |Execute(events).value.links|
    ensures forall k :: 0 <= k < |more| ==> more[k].Deliver?
    ensures Execute(events + more).Some?
    ensures var s, s' := Execute(events).value, Execute(events + more).value;
            && s'.others == s.others && s'.links == s.links
            && forall j :: 0 <= j < n ==> s'.read[j] == |s'.links[j]|
  {
    if n == 0 {
      more := [];
      assert events + more == events;
    } else {
      var first := DrainsUpTo(events, n - 1);
      var last := DrainsOne(events + first, n - 1);
      more := first + last;
      assert events + more == events + first + last;
    }
  }

  /** From any state of any run some deliveries, and no further join, bring the ring of RingForms about. */
  lemma JoinsComplete(events: seq<Event>) returns (more: seq<Event>)
    requires Execute(events).Some?
    ensures forall k :: 0 <= k < |more| ==> more[k].Deliver?
    ensures Execute(events + more).Some? && Drained(Execute(events + more).value)
    ensures Execute(events + more).value.others == Execute(events).value.others
  {
    more := DrainsUpTo(events, |Execute(events).value.links|);
  }
}
