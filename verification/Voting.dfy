/**
 * One backup's side of the election: the loop of InternalRouter::start that reads packets from
 * the ring neighbour and answers each of them.
 */
module Voting {
  import opened Bytes
  import opened Packets

  /** Starting: the initial vote is not sent yet.  Only a Voting backup reads packets. */
  datatype Phase = Starting | Voting | Master | Relaunching

  datatype Reaction = Ignored | Answered(reply: Packet, next: Phase)

  /** A packet that votes for the backup with the given id. */
  predicate VotesFor(p: Packet, id: i32) {
    p.ptype == VOTE && p.seqn == 0 && p.total == ToU32(id)
  }

  /** The vote a backup prepares once: its id, and as payload its address. */
  function OwnVote(id: i32, addr: bytes): (p: Packet)
    ensures VotesFor(p, id)
  {
    BuildPacket(VOTE, 0, ToU32(id), addr)
  }

  /** How the backup with that id, which has prepared `own`, answers a packet. */
  function React(id: i32, own: Packet, p: Packet): Reaction {
    if p.ptype != VOTE then Ignored
    else if p.seqn == 1 then Answered(own, Relaunching)
    else if p.seqn != 0 then Ignored
    else if id == ToI32(p.total) then Answered(p.(seqn := 1), Master)
    else if id < ToI32(p.total) then Answered(own, Voting)
    else Answered(p, Voting)
  }

  /** What a backup has written and where it stands after reading `inbox`, or as much of it as it reads. */
  datatype Ballot = Ballot(out: seq<Packet>, phase: Phase, read: nat)

  function Ballots(id: i32, own: Packet, inbox: seq<Packet>): (b: Ballot)
    ensures b.read <= |inbox|
    ensures b.phase == Voting ==> b.read == |inbox|
  {
    if inbox == [] then Ballot([own], Voting, 0)
    else
      var b := Ballots(id, own, inbox[..|inbox| - 1]);
      if b.phase != Voting then b
      else
        match React(id, own, inbox[|inbox| - 1])
        case Ignored => b.(read := |inbox|)
        case Answered(reply, next) => Ballot(b.out + [reply], next, |inbox|)
  }

  lemma BallotsStop(id: i32, own: Packet, inbox: seq<Packet>, r: nat)
    requires r <= |inbox| && Ballots(id, own, inbox[..r]).phase != Voting
    ensures Ballots(id, own, inbox) == Ballots(id, own, inbox[..r])
    decreases |inbox|
  {
    if r == |inbox| {
      assert inbox[..r] == inbox;
    } else {
      assert inbox[..|inbox| - 1][..r] == inbox[..r];
      BallotsStop(id, own, inbox[..|inbox| - 1], r);
    }
  }

  /** What the loop reacts to at all. */
  predicate Counts(p: Packet) {
    p.ptype == VOTE && (p.seqn == 0 || p.seqn == 1)
  }

  function Counting(inbox: seq<Packet>): seq<Packet> {
    if inbox == [] then []
    else Counting(inbox[..|inbox| - 1]) + if Counts(inbox[|inbox| - 1]) then [inbox[|inbox| - 1]] else []
  }

  lemma OneMoreRead(id: i32, own: Packet, inbox: seq<Packet>, p: Packet)
    ensures var b, c := Ballots(id, own, inbox), Ballots(id, own, inbox + [p]);
            if b.phase != Voting || React(id, own, p).Ignored? then c.out == b.out && c.phase == b.phase
            else c.out == b.out + [React(id, own, p).reply] && c.phase == React(id, own, p).next
  {
    assert (inbox + [p])[..|inbox|] == inbox;
  }

  /** Packets that are not votes, and votes with any other number, change nothing wherever they come in. */
  lemma {:induction false} OtherPacketsDoNotMatter(id: i32, own: Packet, inbox: seq<Packet>)
    ensures Ballots(id, own, inbox).out == Ballots(id, own, Counting(inbox)).out
    ensures Ballots(id, own, inbox).phase == Ballots(id, own, Counting(inbox)).phase
  {
    if inbox != [] {
      var before, p := inbox[..|inbox| - 1], inbox[|inbox| - 1];
      OtherPacketsDoNotMatter(id, own, before);
      assert inbox == before + [p];
      OneMoreRead(id, own, before, p);
      if Counts(p) {
        OneMoreRead(id, own, Counting(before), p);
      } else {
        assert Counting(inbox) == Counting(before);
      }
    }
  }

  lemma {:induction false} NothingCounts(inbox: seq<Packet>)
    requires forall k :: 0 <= k < |inbox| ==> !Counts(inbox[k])
    ensures Counting(inbox) == []
  {
    if inbox != [] {
      NothingCounts(inbox[..|inbox| - 1]);
    }
  }
}
