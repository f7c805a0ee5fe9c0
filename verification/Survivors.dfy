/** The objects that survive a lost master: what each of them does in the vote, and whom it turns to afterwards. */
module Survivors {
  import opened Addresses
  import opened Bytes
  import opened Packets
  import opened Rings
  import opened Voting
  import E = Election
  import F = Failover
  import I = InternalRouters
  import J = Joining
  import T = ElectionTheorems

  /** The object is where the joins have left backup i. */
  ghost predicate Stands(router: I.InternalRouter, s: J.State, i: nat)
    requires J.Shape(s) && i < |s.others|
    reads router
  {
    && router.id == s.backups[i].id && router.ip == s.backups[i].ip && router.adjacent == s.backups[i].adjacent
    && router.port == s.others[i].port + F.INTERNAL_OFFSET
    && !router.isMaster && !router.relaunch
  }

  /** The vote among the settled survivors has come to its end. */
  ghost predicate Voted(s: J.State, votes: seq<E.Event>) {
    && F.Settled(s) && |s.others| >= 2 && F.RingOf(s).Valid()
    && E.Execute(F.RingOf(s), votes).Some?
    && T.Finished(F.RingOf(s), E.Execute(F.RingOf(s), votes).value)
  }

  lemma PhasesAtTheEnd(s: J.State, votes: seq<E.Event>, i: nat)
    requires Voted(s, votes) && i < |s.others|
    ensures var after := E.Execute(F.RingOf(s), votes).value;
            after.phase[i] == if i == 0 then Master else if i == 1 then Relaunching else Voting
  {
    F.RingIsValid(s);
    T.NoDeadlock(F.RingOf(s), votes);
    T.OnlyTheSmallestIdWins(F.RingOf(s), votes, i);
    T.WinnerIsSmallest(F.RingOf(s));
    F.OnlySecondRejoins(s, votes, i);
    assert !E.Enabled(F.RingOf(s), E.Execute(F.RingOf(s), votes).value, E.SendInitial(i));
  }

  /** The voting loop of survivor i, run on everything its predecessor has written, writes everything it has written. */
  lemma LoopOfSurvivor(s: J.State, votes: seq<E.Event>, i: nat)
    requires Voted(s, votes) && i < |s.others|
    ensures J.ValidPeer(s.others[i])
    ensures var after := E.Execute(F.RingOf(s), votes).value;
            Ballots(i, OwnVote(i, Render(F.InternalAddress(s.others[i].ip, s.others[i].port))),
                    after.sent[Prev(|s.others|, i)])
            == Ballot(after.sent[i], after.phase[i], after.read[i])
  {
    F.SurvivorVotes(s, i);
    T.LoopAtTheEnd(F.RingOf(s), votes, i);
  }

  /** The announcements on the first survivor's link name its internal address. */
  lemma AnnouncementsNameFirst(s: J.State, votes: seq<E.Event>)
    requires Voted(s, votes)
    ensures J.ValidPeer(s.others[0])
    ensures forall k :: var sent := E.Execute(F.RingOf(s), votes).value.sent[0];
                        0 <= k < |sent| && sent[k].seqn == 1 ==>
                          Text(sent[k]) == Render(F.InternalAddress(s.others[0].ip, s.others[0].port))
  {
    F.SurvivorVotes(s, 0);
    var sent := E.Execute(F.RingOf(s), votes).value.sent[0];
    var a := F.InternalAddress(s.others[0].ip, s.others[0].port);
    TextOfAddress(a);
    forall k | 0 <= k < |sent| && sent[k].seqn == 1
      ensures Text(sent[k]) == Render(a)
    {
      T.OneAnnouncement(F.RingOf(s), votes, 0, k);
    }
  }

  lemma TextOfAddress(a: Peer)
    requires '\0' !in a.ip
    ensures Text(OwnVote(0, Render(a)).(seqn := 1)) == Render(a)
  {
    assert '\0' !in ToString(a.port);
    TextOfBuilt(VOTE, 0, 0, Render(a));
  }

  /** An object that votes for `me`, next to `next`, on a ring where announcements name `winner`. */
  method VoteAs(router: I.InternalRouter, inbox: seq<Packet>, ghost i: i32, ghost me: Peer, ghost next: Peer,
                ghost winner: Peer, ghost ballot: Ballot)
    returns (out: seq<Packet>)
    requires router.id == i && Peer(router.ip, router.port) == me && router.adjacent == next && next.ip != []
    requires !router.isMaster && !router.relaunch
    requires Ballots(i, OwnVote(i, Render(me)), inbox) == ballot
    requires ballot.phase == Relaunching ==>
               forall k :: 0 <= k < |inbox| && inbox[k].seqn == 1 ==> Text(inbox[k]) == Render(winner)
    modifies router`id, router`adjacent, router`isMaster, router`relaunch, router`dialled
    ensures out == ballot.out
    ensures router.isMaster <==> ballot.phase == Master
    ensures router.relaunch <==> ballot.phase == Relaunching
    ensures router.dialled == if router.relaunch then I.Dialled(winner.ip, winner.port)
                              else I.Dialled(next.ip, next.port + F.INTERNAL_OFFSET)
  {
    var read;
    out, read := router.Elect(inbox);
  }

  lemma SurvivorStands(s: J.State, i: nat)
    requires F.Settled(s) && |s.others| >= 2 && i < |s.others|
    ensures s.backups[i].id == i && s.backups[i].ip == s.others[i].ip && s.others[i].port < TWO_16
    ensures s.backups[i].adjacent == s.others[Next(|s.others|, i)] && s.backups[i].adjacent.ip != []
    ensures J.ValidPeer(s.others[i]) && J.ValidPeer(s.others[0])
  {
    J.SettledWhenDrained(s, i);
  }

  /** What survivor i votes for, next to whom, who is announced on the ring, and how its vote ends. */
  lemma SurvivorFacts(s: J.State, votes: seq<E.Event>, i: nat, inbox: seq<Packet>)
    returns (me: Peer, next: Peer, winner: Peer, ballot: Ballot)
    requires Voted(s, votes) && i < |s.others|
    requires inbox == E.Execute(F.RingOf(s), votes).value.sent[Prev(|s.others|, i)]
    ensures s.backups[i].id == i && me == Peer(s.backups[i].ip, s.others[i].port + F.INTERNAL_OFFSET)
    ensures next == s.backups[i].adjacent == s.others[Next(|s.others|, i)] && next.ip != []
    ensures winner == Peer(s.others[0].ip, s.others[0].port + F.INTERNAL_OFFSET)
    ensures Ballots(i, OwnVote(i, Render(me)), inbox) == ballot
    ensures ballot.out == E.Execute(F.RingOf(s), votes).value.sent[i]
    ensures (ballot.phase == Master <==> i == 0) && (ballot.phase == Relaunching <==> i == 1)
    ensures i == 1 ==> forall k :: 0 <= k < |inbox| && inbox[k].seqn == 1 ==> Text(inbox[k]) == Render(winner)
  {
    SurvivorStands(s, i);
    LoopOfSurvivor(s, votes, i);
    PhasesAtTheEnd(s, votes, i);
    AnnouncementsNameFirst(s, votes);
    var after := E.Execute(F.RingOf(s), votes).value;
    me, next := F.InternalAddress(s.others[i].ip, s.others[i].port), s.others[Next(|s.others|, i)];
    winner := F.InternalAddress(s.others[0].ip, s.others[0].port);
    ballot := Ballot(after.sent[i], after.phase[i], after.read[i]);
  }

  /**
   * Every survivor's own object, given what its predecessor wrote over the whole vote, writes what the ring says it
   * wrote; the earliest joined backup ends as master, the one after it relaunches and turns to that backup's internal
   * address, and every other one is left voting, connected to its own neighbour.
   */
  method ElectAtSurvivor(s: J.State, ghost votes: seq<E.Event>, i: nat, inbox: seq<Packet>, router: I.InternalRouter)
    returns (out: seq<Packet>)
    requires Voted(s, votes) && i < |s.others| && Stands(router, s, i)
    requires inbox == E.Execute(F.RingOf(s), votes).value.sent[Prev(|s.others|, i)]
    modifies router`id, router`adjacent, router`isMaster, router`relaunch, router`dialled
    ensures out == E.Execute(F.RingOf(s), votes).value.sent[i]
    ensures router.isMaster <==> i == 0
    ensures router.relaunch <==> i == 1
    ensures router.dialled == var to := s.others[if i == 1 then 0 else Next(|s.others|, i)];
                              I.Dialled(to.ip, to.port + F.INTERNAL_OFFSET)
  {
    ghost var me, next, winner, ballot := SurvivorFacts(s, votes, i, inbox);
    out := VoteAs(router, inbox, i, me, next, winner, ballot);
  }
}
