/** What the backup that takes over from a lost master holds of the users' files. */
module Durability {
  import opened Addresses
  import opened Stores
  import E = Election
  import F = Failover
  import J = Joining
  import R = Replication
  import T = ElectionTheorems

  /** A backup enters the ring and the replication in one step of the master; any other step belongs to one of them. */
  datatype Event = Join(peer: Peer, disk: Store) | Reply(i: nat) | Files(e: R.Event)

  function RingSide(events: seq<Event>): seq<J.Event> {
    if events == [] then []
    else
      var before := RingSide(events[..|events| - 1]);
      match events[|events| - 1]
      case Join(peer, _) => before + [J.Join(peer)]
      case Reply(i) => before + [J.Deliver(i)]
      case Files(_) => before
  }

  function FileSide(events: seq<Event>): seq<R.Event> {
    if events == [] then []
    else
      var before := FileSide(events[..|events| - 1]);
      match events[|events| - 1]
      case Join(_, disk) => before + [R.Join(disk)]
      case Reply(_) => before
      case Files(e) => before + [e]
  }

  /** A run up to the loss of the master. */
  ghost predicate Run(disk: Store, events: seq<Event>) {
    && (forall k :: 0 <= k < |events| && events[k].Files? ==> !events[k].e.Join?)
    && J.Execute(RingSide(events)).Some?
    && R.Execute(disk, FileSide(events)).Some?
  }

  function RingAt(events: seq<Event>): J.State
    requires J.Execute(RingSide(events)).Some?
  {
    J.Execute(RingSide(events)).value
  }

  function FilesAt(disk: Store, events: seq<Event>): R.State
    requires R.Execute(disk, FileSide(events)).Some?
  {
    R.Execute(disk, FileSide(events)).value
  }

  function Joined(events: seq<Event>): nat {
    if events == [] then 0
    else Joined(events[..|events| - 1]) + if events[|events| - 1].Join? then 1 else 0
  }

  lemma {:induction false} JoinedRing(events: seq<Event>)
    requires J.Execute(RingSide(events)).Some?
    ensures |RingAt(events).others| == Joined(events)
  {
    if events != [] {
      var before, e := events[..|events| - 1], events[|events| - 1];
      assert !e.Files? ==> RingSide(events)[..|RingSide(events)| - 1] == RingSide(before);
      JoinedRing(before);
    }
  }

  lemma {:induction false} JoinedFiles(disk: Store, events: seq<Event>)
    requires forall k :: 0 <= k < |events| && events[k].Files? ==> !events[k].e.Join?
    requires R.Execute(disk, FileSide(events)).Some?
    ensures |FilesAt(disk, events).links| == Joined(events)
  {
    if events != [] {
      var before, e := events[..|events| - 1], events[|events| - 1];
      assert !e.Reply? ==> FileSide(events)[..|FileSide(events)| - 1] == FileSide(before);
      JoinedFiles(disk, before);
    }
  }

  /** The backups of the ring are, by number, those the master forwards records to. */
  lemma SameBackups(disk: Store, events: seq<Event>)
    requires Run(disk, events)
    ensures |RingAt(events).others| == |FilesAt(disk, events).links|
  {
    JoinedRing(events);
    JoinedFiles(disk, events);
  }

  /** The survivors' vote has come to its end; a single survivor does not vote. */
  ghost predicate VoteOver(s: J.State, votes: seq<E.Event>) {
    F.Settled(s) &&
    (|s.others| >= 2 ==>
       && F.RingOf(s).Valid()
       && E.Execute(F.RingOf(s), votes).Some?
       && T.Finished(F.RingOf(s), E.Execute(F.RingOf(s), votes).value))
  }

  /** However far the vote has got, it comes to its end. */
  lemma VoteEnds(s: J.State, votes: seq<E.Event>) returns (more: seq<E.Event>)
    requires F.Settled(s)
    requires |s.others| >= 2 ==> F.RingOf(s).Valid() && E.Execute(F.RingOf(s), votes).Some?
    ensures VoteOver(s, votes + more)
  {
    more := [];
    if |s.others| >= 2 {
      more := F.FirstBackupTakesOver(s, votes);
    }
  }

  /** Backup i is master, and nobody else. */
  ghost predicate TookOver(s: J.State, votes: seq<E.Event>, i: nat)
    requires VoteOver(s, votes)
  {
    if |s.others| == 1 then i == 0 && F.StandsAlone(s.backups[0]) else F.Masters(s, votes) == {i}
  }

  lemma FirstTakesOver(s: J.State, votes: seq<E.Event>)
    requires VoteOver(s, votes)
    ensures TookOver(s, votes, 0)
  {
    if |s.others| == 1 {
      J.SettledWhenDrained(s, 0);
    } else {
      T.NoDeadlock(F.RingOf(s), votes);
      F.FirstIsMasterAtTheEnd(s, votes);
    }
  }

  /**
   * The master is lost at any moment of any run.  The earliest joined backup takes over, and if it has read its link
   * it holds the lost master's version of a file mentioned there, up to the one record in progress, exactly when the
   * last record about the file took effect at both or at neither of them.
   */
  lemma NewMasterHolds(disk: Store, events: seq<Event>, votes: seq<E.Event>, u: User, f: Name)
    requires Run(disk, events) && VoteOver(RingAt(events), votes)
    requires Housed(disk)
    ensures TookOver(RingAt(events), votes, 0) && |FilesAt(disk, events).links| >= 1
    ensures var s := FilesAt(disk, events);
            s.read[0] == |s.links[0]| && Touched(Of(u, s.links[0]), f) && Housed(s.disks[0]) ==>
              (Lookup(s.backups[0], u, f) == Lookup(R.MasterFor(s, u, 0), u, f)
               <==> (R.MasterTakesLast(s, u, 0, f) <==> R.BackupTakesLast(s, u, 0, f)))
  {
    FirstTakesOver(RingAt(events), votes);
    SameBackups(disk, events);
    var s := FilesAt(disk, events);
    if s.read[0] == |s.links[0]| {
      R.ReplicaAgreement(disk, FileSide(events), u, 0, f);
    }
  }

  lemma {:induction false} SidesSplit(before: seq<Event>, peer: Peer, d: Store, after: seq<Event>)
    ensures FileSide(before + [Join(peer, d)] + after) == FileSide(before) + [R.Join(d)] + FileSide(after)
    decreases |after|
  {
    var all := before + [Join(peer, d)] + after;
    if after == [] {
      assert all[..|all| - 1] == before;
    } else {
      assert all[..|all| - 1] == before + [Join(peer, d)] + after[..|after| - 1];
      SidesSplit(before, peer, d, after[..|after| - 1]);
    }
  }

  /**
   * Finished writes survive.  If a user was logged out when the first backup joined, then whatever the user has
   * changed since, the backup that takes over has it as the lost master had it, provided the master took the last
   * change; a last change that the master refused is the one case in which it differs.
   */
  lemma FinishedWritesSurvive(disk: Store, before: seq<Event>, peer: Peer, d: Store, after: seq<Event>,
                              votes: seq<E.Event>, u: User, f: Name)
    requires Run(disk, before + [Join(peer, d)] + after) && R.Execute(disk, FileSide(before)).Some?
    requires VoteOver(RingAt(before + [Join(peer, d)] + after), votes)
    requires var s0 := FilesAt(disk, before);
             s0.links == [] && u !in s0.online && u !in s0.jobs
    requires var s, s0 := FilesAt(disk, before + [Join(peer, d)] + after), FilesAt(disk, before);
             |s.links| >= 1 && s.read[0] == |s.links[0]|
             && Touched(R.From(Of(u, s.applied), |R.Begun(s0, u)|), f)
    ensures TookOver(RingAt(before + [Join(peer, d)] + after), votes, 0)
    ensures var s := FilesAt(disk, before + [Join(peer, d)] + after);
            var holds := Lookup(s.backups[0], u, f) == Lookup(R.MasterFor(s, u, 0), u, f);
            && (R.MasterTakesLast(s, u, 0, f) ==> holds)
            && (Housed(disk) && Housed(d) ==> (holds <==> R.MasterTakesLast(s, u, 0, f)))
  {
    var all := before + [Join(peer, d)] + after;
    FirstTakesOver(RingAt(all), votes);
    SidesSplit(before, peer, d, after);
    var s, n := FilesAt(disk, all), |R.Begun(FilesAt(disk, before), u)|;
    R.FinishedIsOwed(s, u, 0, n, f);
    R.EarlyBackupAgrees(disk, FileSide(before), d, FileSide(after), u, f);
  }
}
