/** The whole failover: backups join, the master is lost, and the survivors settle on a new one. */
module Failover {
  import opened Bytes
  import opened Packets
  import opened Addresses
  import opened Rings
  import opened Voting
  import J = Joining
  import E = Election
  import T = ElectionTheorems

  /** Servers talk to each other on the client port plus 50. */
  const INTERNAL_OFFSET := 50

  function InternalAddress(ip: bytes, port: int): Peer
    requires 0 <= port < TWO_16
  {
    Peer(ip, port + INTERNAL_OFFSET)
  }

  /** After the joins, with nothing left on the links. */
  ghost predicate Settled(s: J.State) {
    J.Inv(s) && J.Drained(s) && |s.others| >= 1
  }

  lemma JoinsSettle(joins: seq<J.Event>)
    requires J.Execute(joins).Some? && J.Drained(J.Execute(joins).value) && |J.Execute(joins).value.others| >= 1
    ensures Settled(J.Execute(joins).value)
  {
    J.ReachableInv(joins);
  }

  /** Backup i, dialling its neighbour, reaches the server that listens for backup j. */
  predicate Dials(s: J.State, i: nat, j: nat)
    requires J.Shape(s) && i < |s.others| && j < |s.others|
  {
    s.backups[i].adjacent.ip == s.others[j].ip
    && s.backups[i].adjacent.port + INTERNAL_OFFSET == s.others[j].port + INTERNAL_OFFSET
  }

  /** A backup that was never told a neighbour takes over without a vote. */
  predicate StandsAlone(b: J.Backup) {
    b.adjacent.ip == []
  }

  /** The ring the survivors vote on: the ids they were given, and their votes with their own internal addresses. */
  function RingOf(s: J.State): E.Ring
    requires J.Shape(s) && forall i :: 0 <= i < |s.others| ==> J.ValidPeer(s.others[i])
  {
    E.Ring(seq(|s.others|, i requires 0 <= i < |s.others| => s.backups[i].id),
           seq(|s.others|, i requires 0 <= i < |s.others| && J.ValidPeer(s.others[i]) =>
                 OwnVote(s.backups[i].id, Render(InternalAddress(s.backups[i].ip, s.others[i].port)))))
  }

  /** Who has called set_is_master(true) after the given schedule of the vote. */
  ghost function Masters(s: J.State, votes: seq<E.Event>): set<nat>
    requires J.Inv(s) && RingOf(s).Valid()
  {
    var outcome := E.Execute(RingOf(s), votes);
    set i: nat | i < |s.others| && (StandsAlone(s.backups[i]) || (outcome.Some? && outcome.value.phase[i] == Master))
  }

  /** What the survivors know after the joins. */
  lemma SurvivorsKnow(s: J.State, i: nat)
    requires Settled(s) && |s.others| >= 2 && i < |s.others|
    ensures s.backups[i].id == i && s.backups[i].ip == s.others[i].ip && !StandsAlone(s.backups[i])
    ensures J.ValidPeer(s.others[i])
  {
    J.SettledWhenDrained(s, i);
  }

  /** What survivor i votes with. */
  lemma SurvivorVotes(s: J.State, i: nat)
    requires Settled(s) && |s.others| >= 2 && i < |s.others|
    ensures forall j :: 0 <= j < |s.others| ==> J.ValidPeer(s.others[j])
    ensures RingOf(s).ids[i] == i
    ensures RingOf(s).votes[i] == OwnVote(i, Render(InternalAddress(s.others[i].ip, s.others[i].port)))
  {
    J.SettledWhenDrained(s, i);
  }

  lemma RingOfSurvivors(s: J.State)
    requires Settled(s) && |s.others| >= 2
    ensures RingOf(s).Valid()
    ensures forall i :: 0 <= i < |s.others| ==> RingOf(s).ids[i] == i && !StandsAlone(s.backups[i])
    ensures forall i :: 0 <= i < |s.others| ==>
                          RingOf(s).votes[i] == OwnVote(i, Render(InternalAddress(s.others[i].ip, s.others[i].port)))
  {
    forall i | 0 <= i < |s.others|
      ensures s.backups[i].id == i && s.backups[i].ip == s.others[i].ip && !StandsAlone(s.backups[i])
      ensures J.ValidPeer(s.others[i])
    {
      SurvivorsKnow(s, i);
    }
  }

  /** The survivors form a ring of voters whose winner is the first of them. */
  lemma RingIsValid(s: J.State)
    requires Settled(s) && |s.others| >= 2
    ensures RingOf(s).Valid() && |RingOf(s).ids| == |s.others| && T.Winner(RingOf(s)) == 0
  {
    RingOfSurvivors(s);
    T.WinnerIsSmallest(RingOf(s));
    assert RingOf(s).Smallest(0);
  }

  /** With distinct addresses the connections the survivors open are the links of the voting ring and no others. */
  lemma DiallingFollowsRing(s: J.State, i: nat, j: nat)
    requires Settled(s) && |s.others| >= 2 && i < |s.others| && j < |s.others|
    requires forall a, b :: 0 <= a < b < |s.others| ==> s.others[a] != s.others[b]
    ensures Dials(s, i, j) <==> j == Next(|s.others|, i)
  {
    J.SettledWhenDrained(s, i);
    assert s.backups[i].adjacent == s.others[Next(|s.others|, i)];
  }

  /** The only survivor of a one-backup system is master at once. */
  lemma LoneBackupTakesOver(joins: seq<J.Event>)
    requires J.Execute(joins).Some? && J.Drained(J.Execute(joins).value) && |J.Execute(joins).value.others| == 1
    ensures StandsAlone(J.Execute(joins).value.backups[0]) && J.Execute(joins).value.backups[0].id == 0
  {
    J.RingForms(joins, 0);
  }

  /** Among settled survivors nobody but the first becomes master, whatever the schedule. */
  lemma MastersWithinFirst(s: J.State, votes: seq<E.Event>)
    requires Settled(s) && |s.others| >= 2 && RingOf(s).Valid()
    ensures Masters(s, votes) <= {0}
  {
    RingIsValid(s);
    forall i: nat | i in Masters(s, votes)
      ensures i == 0
    {
      SurvivorsKnow(s, i);
      T.OnlyTheSmallestIdWins(RingOf(s), votes, i);
      T.WinnerIsSmallest(RingOf(s));
    }
  }

  lemma FirstIsMasterAtTheEnd(s: J.State, votes: seq<E.Event>)
    requires Settled(s) && |s.others| >= 2 && RingOf(s).Valid()
    requires E.Execute(RingOf(s), votes).Some?
    requires E.Execute(RingOf(s), votes).value.phase[T.Winner(RingOf(s))] == Master
    ensures Masters(s, votes) == {0}
  {
    RingIsValid(s);
    MastersWithinFirst(s, votes);
    assert 0 in Masters(s, votes);
  }

  /** With two or more survivors nobody but the earliest joined backup ever becomes master, whatever the schedule. */
  lemma OnlyFirstBackupTakesOver(joins: seq<J.Event>, votes: seq<E.Event>)
    requires J.Execute(joins).Some? && J.Drained(J.Execute(joins).value) && |J.Execute(joins).value.others| >= 2
    ensures var s := J.Execute(joins).value;
            && J.Inv(s) && RingOf(s).Valid()
            && Masters(s, votes) <= {0}
  {
    J.ReachableInv(joins);
    var s := J.Execute(joins).value;
    RingIsValid(s);
    MastersWithinFirst(s, votes);
  }

  /** However far the vote has got, it can be played to its end; then the earliest joined backup is the one master. */
  lemma FirstBackupTakesOver(s: J.State, votes: seq<E.Event>) returns (more: seq<E.Event>)
    requires Settled(s) && |s.others| >= 2 && RingOf(s).Valid()
    requires E.Execute(RingOf(s), votes).Some?
    ensures E.Execute(RingOf(s), votes + more).Some?
    ensures T.Finished(RingOf(s), E.Execute(RingOf(s), votes + more).value)
    ensures Masters(s, votes + more) == {0}
  {
    more := T.EveryRunElects(RingOf(s), votes);
    FirstIsMasterAtTheEnd(s, votes + more);
  }

  /** Once the vote is over the winner's successor has the internal address of the earliest joined backup. */
  lemma SuccessorIsTold(s: J.State, votes: seq<E.Event>)
    requires Settled(s) && |s.others| >= 2 && RingOf(s).Valid()
    requires E.Execute(RingOf(s), votes).Some? && T.Finished(RingOf(s), E.Execute(RingOf(s), votes).value)
    ensures var n, after := |s.others|, E.Execute(RingOf(s), votes).value;
            && after.phase[1] == Relaunching
            && n < |after.sent[0]|
            && ParseLast(Text(after.sent[0][n])) == Parsed(InternalAddress(s.others[0].ip, s.others[0].port))
  {
    RingIsValid(s);
    T.SuccessorHears(RingOf(s), votes);
    SurvivorsKnow(s, 0);
    RingOfSurvivors(s);
    AnnouncedAddress(s.others[0]);
  }

  lemma AnnouncedAddress(p: Peer)
    requires J.ValidPeer(p)
    ensures ParseLast(Text(OwnVote(0, Render(InternalAddress(p.ip, p.port)))))
            == Parsed(InternalAddress(p.ip, p.port))
  {
    var a := InternalAddress(p.ip, p.port);
    assert '\0' !in ToString(a.port);
    TextOfBuilt(VOTE, 0, 0, Render(a));
    AddressRoundTrip(a);
  }

  /** Who starts over and joins the new master. */
  ghost function Rejoining(s: J.State, votes: seq<E.Event>): set<nat>
    requires J.Inv(s) && RingOf(s).Valid() && E.Execute(RingOf(s), votes).Some?
  {
    set i: nat | i < |s.others| && E.Execute(RingOf(s), votes).value.phase[i] == Relaunching
  }

  lemma OnlySecondRejoins(s: J.State, votes: seq<E.Event>, i: nat)
    requires Settled(s) && |s.others| >= 2 && RingOf(s).Valid() && i < |s.others|
    requires E.Execute(RingOf(s), votes).Some? && T.Finished(RingOf(s), E.Execute(RingOf(s), votes).value)
    ensures E.Execute(RingOf(s), votes).value.phase[i] == Relaunching <==> i == 1
  {
    RingIsValid(s);
    T.OnlySuccessorRelaunches(RingOf(s), votes, i);
  }

  /**
   * However many backups survive, exactly one of them ever joins the new master: the second to have joined.  So the
   * next generation has one backup, and LoneBackupTakesOver is what happens when that master is lost in turn.
   */
  lemma ExactlyOneRejoins(s: J.State, votes: seq<E.Event>)
    requires Settled(s) && |s.others| >= 2 && RingOf(s).Valid()
    requires E.Execute(RingOf(s), votes).Some? && T.Finished(RingOf(s), E.Execute(RingOf(s), votes).value)
    ensures Rejoining(s, votes) == {1}
  {
    forall i: nat | i < |s.others|
      ensures i in Rejoining(s, votes) <==> i == 1
    {
      OnlySecondRejoins(s, votes, i);
    }
  }
}
