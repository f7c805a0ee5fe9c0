/** What the election guarantees, for every ring of two or more distinct ids and every schedule. */
module ElectionTheorems {
  import opened Bytes
  import opened Packets
  import opened Rings
  import opened Voting
  import opened Election
  import opened Wrappers

  /** The position of the smallest id. */
  function Winner(ring: Ring): (w: nat)
    requires ring.Valid()
    ensures w < |ring.ids|
  {
    Best(ring.ids, 0, |ring.ids|)
  }

  lemma WinnerIsSmallest(ring: Ring)
    requires ring.Valid()
    ensures ring.Smallest(Winner(ring))
    ensures forall i :: 0 <= i < |ring.ids| && ring.Smallest(i) ==> i == Winner(ring)
  {
    var n := |ring.ids|;
    BestIsLeast(ring.ids, 0, n);
    forall j | 0 <= j < n
      ensures ring.ids[Winner(ring)] <= ring.ids[j]
    {
      assert Back(n, 0, if j == 0 then 0 else n - j) == j;
    }
  }

  lemma Reached(ring: Ring, events: seq<Event>) returns (s: State)
    requires ring.Valid() && Execute(ring, events).Some?
    ensures s == Execute(ring, events).value && Inv(ring, Winner(ring), s)
  {
    WinnerIsSmallest(ring);
    ReachableInv(ring, Winner(ring), events);
    s := Execute(ring, events).value;
  }

  // ------------------------------------------------------------------ confluence

  /** What each link carries does not depend on the interleaving: two schedules differ only in how far they got. */
  lemma Confluence(ring: Ring, events: seq<Event>, events': seq<Event>)
    requires ring.Valid() && Execute(ring, events).Some? && Execute(ring, events').Some?
    ensures var s, s' := Execute(ring, events).value, Execute(ring, events').value;
            forall i, k :: 0 <= i < |ring.ids| && 0 <= k < |s.sent[i]| && k < |s'.sent[i]| ==>
                             s.sent[i][k] == s'.sent[i][k]
  {
    var s := Reached(ring, events);
    var s' := Reached(ring, events');
    forall i, k | 0 <= i < |ring.ids| && 0 <= k < |s.sent[i]| && k < |s'.sent[i]|
      ensures s.sent[i][k] == s'.sent[i][k]
    {
      assert NodeInv(ring, Winner(ring), s, i) && NodeInv(ring, Winner(ring), s', i);
    }
  }

  /** `a` is the position with the smallest id among the `len` positions ending at i. */
  ghost predicate LeastOfWindow(ring: Ring, i: nat, len: nat, a: nat)
    requires ring.Valid() && i < |ring.ids| && len <= |ring.ids|
  {
    && a < |ring.ids|
    && (exists k :: 0 <= k < len && a == Back(|ring.ids|, i, k))
    && (forall k :: 0 <= k < len ==> ring.ids[a] <= ring.ids[Back(|ring.ids|, i, k)])
  }

  ghost predicate Announced(s: State) {
    exists i :: 0 <= i < |s.phase| && s.phase[i] == Relaunching
  }

  /** Until the announcement is read, nobody's log reaches the vote the announcement sets off. */
  lemma {:induction false} BeforeAnnouncement(ring: Ring, s: State, d: nat)
    requires ring.Valid() && Inv(ring, Winner(ring), s) && !Announced(s)
    requires 1 <= d < |ring.ids|
    ensures forall i :: 0 <= i < |ring.ids| && Dist(|ring.ids|, Winner(ring), i) == d ==>
                          |s.sent[i]| <= |ring.ids| + d
  {
    var n, w := |ring.ids|, Winner(ring);
    forall i | 0 <= i < n && Dist(n, w, i) == d
      ensures |s.sent[i]| <= n + d
    {
      assert NodeInv(ring, w, s, i) && NodeInv(ring, w, s, Prev(n, i));
      if d > 1 {
        BeforeAnnouncement(ring, s, d - 1);
        assert Dist(n, w, Prev(n, i)) == d - 1;
      }
    }
  }

  /**
   * Until the announcement is read, the k-th vote on the link leaving i is the vote, address included, of the
   * smallest id among the last min(k + 1, n) positions ending at i.
   */
  lemma VotesCarryWindowMinimum(ring: Ring, events: seq<Event>, i: nat, k: nat)
    requires ring.Valid() && Execute(ring, events).Some? && !Announced(Execute(ring, events).value)
    requires i < |ring.ids| && k < |Execute(ring, events).value.sent[i]|
    requires Execute(ring, events).value.sent[i][k].seqn == 0
    ensures exists a: nat :: LeastOfWindow(ring, i, Min(k + 1, |ring.ids|), a)
                        && Execute(ring, events).value.sent[i][k] == ring.votes[a]
  {
    var s := Reached(ring, events);
    var n, w := |ring.ids|, Winner(ring);
    assert NodeInv(ring, w, s, i);
    if Dist(n, w, i) > 0 {
      BeforeAnnouncement(ring, s, Dist(n, w, i));
    }
    BestIsLeast(ring.ids, i, Min(k + 1, n));
    assert LeastOfWindow(ring, i, Min(k + 1, n), Best(ring.ids, i, Min(k + 1, n)));
  }

  // ------------------------------------------------------------------ safety

  /**
   * In every state of every run, after the announcement too, only the backup with the smallest id is ever master,
   * and it is master exactly from its n-th read on.
   */
  lemma OnlyTheSmallestIdWins(ring: Ring, events: seq<Event>, i: nat)
    requires ring.Valid() && Execute(ring, events).Some? && i < |ring.ids|
    ensures var s := Execute(ring, events).value;
            && (s.phase[i] == Master <==> ring.Smallest(i) && s.read[i] == |ring.ids|)
            && (ring.Smallest(i) ==> s.read[i] <= |ring.ids|)
  {
    var s := Reached(ring, events);
    WinnerIsSmallest(ring);
    assert NodeInv(ring, Winner(ring), s, i);
  }

  /**
   * Every packet ever sent is some backup's own vote, address included; the only exception is one announcement,
   * which the winner writes as its n-th reply and which names itself.
   */
  lemma OneAnnouncement(ring: Ring, events: seq<Event>, i: nat, k: nat)
    requires ring.Valid() && Execute(ring, events).Some? && i < |ring.ids|
    requires k < |Execute(ring, events).value.sent[i]|
    ensures var p := Execute(ring, events).value.sent[i][k];
            && (p.seqn == 0 ==> p in ring.votes)
            && (p.seqn != 0 ==> ring.Smallest(i) && k == |ring.ids| && p == ring.votes[i].(seqn := 1))
  {
    var s := Reached(ring, events);
    WinnerIsSmallest(ring);
    assert NodeInv(ring, Winner(ring), s, i);
    assert s.sent[i][k] == Stream(ring, Winner(ring), i, k);
  }

  /** Only the winner's successor ever handles the announcement, and it is relaunching exactly when it has. */
  lemma OnlySuccessorHears(ring: Ring, events: seq<Event>, i: nat)
    requires ring.Valid() && Execute(ring, events).Some? && i < |ring.ids|
    ensures var s, h := Execute(ring, events).value, Prev(|ring.ids|, i);
            && s.read[i] <= |s.sent[h]|
            && (s.phase[i] == Relaunching ==> ring.Smallest(h))
            && (s.phase[i] == Relaunching <==> exists k :: 0 <= k < s.read[i] && s.sent[h][k].seqn == 1)
  {
    var n, w, h := |ring.ids|, Winner(ring), Prev(|ring.ids|, i);
    var s := Reached(ring, events);
    WinnerIsSmallest(ring);
    assert NodeInv(ring, w, s, i) && NodeInv(ring, w, s, h);
    if s.phase[i] == Relaunching {
      assert s.sent[h][n] == Stream(ring, w, h, n);
      assert s.sent[h][n].seqn == 1;
    } else {
      forall k | 0 <= k < s.read[i]
        ensures s.sent[h][k].seqn != 1
      {
        OneAnnouncement(ring, events, h, k);
      }
    }
  }

  // ------------------------------------------------------------------ progress

  function Started(s: State, k: nat): nat
    requires k <= |s.phase|
  {
    if k == 0 then 0 else Started(s, k - 1) + if s.phase[k - 1] == Starting then 0 else 1
  }

  /** Packets written to node i's outgoing link and not yet read. */
  function Pending(ring: Ring, s: State, i: nat): int
    requires Shape(ring, s) && i < |ring.ids|
  {
    |s.sent[i]| - s.read[Next(|ring.ids|, i)]
  }

  function InFlight(ring: Ring, s: State, k: nat): int
    requires Shape(ring, s) && k <= |ring.ids|
  {
    if k == 0 then 0 else InFlight(ring, s, k - 1) + Pending(ring, s, k - 1)
  }

  lemma {:induction false} InFlightUpTo(ring: Ring, w: nat, s: State, k: nat)
    requires Inv(ring, w, s) && k < |ring.ids|
    ensures InFlight(ring, s, k) == Started(s, k) + s.read[0] - s.read[k]
  {
    if k > 0 {
      InFlightUpTo(ring, w, s, k - 1);
      assert NodeInv(ring, w, s, k - 1);
    }
  }

  /** The number of packets in flight is the number of backups that have sent their initial vote. */
  lemma InFlightEqualsStarted(ring: Ring, events: seq<Event>)
    requires ring.Valid() && Execute(ring, events).Some?
    ensures InFlight(ring, Execute(ring, events).value, |ring.ids|)
            == Started(Execute(ring, events).value, |ring.ids|)
  {
    var s := Reached(ring, events);
    InFlightUpTo(ring, Winner(ring), s, |ring.ids| - 1);
    assert NodeInv(ring, Winner(ring), s, |ring.ids| - 1);
  }

  lemma {:induction false} SomeLinkHolds(ring: Ring, s: State, k: nat)
    requires Shape(ring, s) && k <= |ring.ids| && InFlight(ring, s, k) > 0
    ensures exists i :: 0 <= i < k && Pending(ring, s, i) > 0
  {
    if Pending(ring, s, k - 1) <= 0 {
      SomeLinkHolds(ring, s, k - 1);
    }
  }

  lemma {:induction false} AllStarted(s: State, k: nat)
    requires k <= |s.phase| && forall i :: 0 <= i < k ==> s.phase[i] != Starting
    ensures Started(s, k) == k
  {
    if k > 0 {
      AllStarted(s, k - 1);
    }
  }

  ghost predicate Finished(ring: Ring, s: State)
    requires Shape(ring, s)
  {
    forall e: Event :: !Enabled(ring, s, e)
  }

  /** As long as nobody has won, some event is possible. */
  lemma NoDeadlock(ring: Ring, events: seq<Event>)
    requires ring.Valid() && Execute(ring, events).Some?
    requires Finished(ring, Execute(ring, events).value)
    ensures Execute(ring, events).value.phase[Winner(ring)] == Master
  {
    var n, w := |ring.ids|, Winner(ring);
    var s := Reached(ring, events);
    if s.phase[w] != Master {
      forall i | 0 <= i < n
        ensures s.phase[i] == Voting
      {
        assert NodeInv(ring, w, s, i) && NodeInv(ring, w, s, Prev(n, i)) && NodeInv(ring, w, s, w);
        assert !Enabled(ring, s, SendInitial(i));
        assert Dist(n, w, i) == 1 ==> Prev(n, i) == w;
      }
      AllStarted(s, n);
      InFlightEqualsStarted(ring, events);
      SomeLinkHolds(ring, s, n);
      var i :| 0 <= i < n && Pending(ring, s, i) > 0;
      assert Enabled(ring, s, Deliver(Next(n, i)));
      assert false;
    }
  }

  function Total(logs: seq<seq<Packet>>): nat {
    if logs == [] then 0 else Total(logs[..|logs| - 1]) + |logs[|logs| - 1]|
  }

  lemma {:induction false} TotalGrows(logs: seq<seq<Packet>>, i: nat, p: Packet)
    requires i < |logs|
    ensures Total(logs[i := logs[i] + [p]]) == Total(logs) + 1
  {
    var logs' := logs[i := logs[i] + [p]];
    var m := |logs| - 1;
    if i == m {
      assert logs'[..m] == logs[..m];
    } else {
      TotalGrows(logs[..m], i, p);
      assert logs'[..m] == logs[..m][i := logs[..m][i] + [p]];
    }
  }

  lemma {:induction false} TotalOfEmpty(logs: seq<seq<Packet>>)
    requires forall i :: 0 <= i < |logs| ==> logs[i] == []
    ensures Total(logs) == 0
  {
    if logs != [] {
      TotalOfEmpty(logs[..|logs| - 1]);
    }
  }

  lemma {:induction false} TotalBounded(logs: seq<seq<Packet>>, bound: nat)
    requires forall i :: 0 <= i < |logs| ==> |logs[i]| <= bound
    ensures Total(logs) <= |logs| * bound
  {
    if logs != [] {
      TotalBounded(logs[..|logs| - 1], bound);
      assert |logs| * bound == (|logs| - 1) * bound + bound;
    }
  }

  /** Every event of a run, initial vote or delivery, puts exactly one packet on a link: none is swallowed. */
  lemma {:induction false} EveryEventSendsOnce(ring: Ring, events: seq<Event>)
    requires ring.Valid() && Execute(ring, events).Some?
    ensures Total(Execute(ring, events).value.sent) == |events|
  {
    if events == [] {
      TotalOfEmpty(Init(ring).sent);
    } else {
      var before, e := events[..|events| - 1], events[|events| - 1];
      EveryEventSendsOnce(ring, before);
      var s := Reached(ring, before);
      var s' := Reached(ring, events);
      assert NodeInv(ring, Winner(ring), s, e.i) && NodeInv(ring, Winner(ring), s, Prev(|ring.ids|, e.i));
      if e.Deliver? {
        ReactionFollowsStream(ring, Winner(ring), e.i, s.read[e.i]);
      }
      TotalGrows(s.sent, e.i, s'.sent[e.i][|s.sent[e.i]|]);
      assert s'.sent == s.sent[e.i := s.sent[e.i] + [s'.sent[e.i][|s.sent[e.i]|]]];
    }
  }

  /** No run, announcement and all, has more than 2n^2 events. */
  lemma RunsAreShort(ring: Ring, events: seq<Event>)
    requires ring.Valid() && Execute(ring, events).Some?
    ensures |events| <= |ring.ids| * (2 * |ring.ids|)
  {
    var s := Reached(ring, events);
    EveryEventSendsOnce(ring, events);
    forall i | 0 <= i < |ring.ids|
      ensures |s.sent[i]| <= 2 * |ring.ids|
    {
      assert NodeInv(ring, Winner(ring), s, i);
    }
    TotalBounded(s.sent, 2 * |ring.ids|);
  }

  lemma OneLonger(ring: Ring, events: seq<Event>) returns (longer: seq<Event>)
    requires ring.Valid() && Execute(ring, events).Some? && !Finished(ring, Execute(ring, events).value)
    ensures |longer| == |events| + 1 <= |ring.ids| * (2 * |ring.ids|) && longer[..|events|] == events
    ensures Execute(ring, longer).Some?
  {
    var e :| Enabled(ring, Execute(ring, events).value, e);
    longer := events + [e];
    assert longer[..|longer| - 1] == events;
    RunsAreShort(ring, longer);
  }

  /** However a run began, it can be played on until no event is left, and then the smallest id is master. */
  lemma {:induction false} EveryRunElects(ring: Ring, events: seq<Event>) returns (more: seq<Event>)
    requires ring.Valid() && Execute(ring, events).Some?
    ensures Execute(ring, events + more).Some?
    ensures Finished(ring, Execute(ring, events + more).value)
    ensures Execute(ring, events + more).value.phase[Winner(ring)] == Master
    decreases |ring.ids| * (2 * |ring.ids|) - |events|
  {
    var s := Execute(ring, events).value;
    if Finished(ring, s) {
      more := [];
      assert events + more == events;
      NoDeadlock(ring, events);
    } else {
      var longer := OneLonger(ring, events);
      var rest := EveryRunElects(ring, longer);
      more := longer[|events|..] + rest;
      assert events + more == longer + rest;
    }
  }

  /** Once a run is over the winner has announced itself and its successor knows. */
  lemma SuccessorHears(ring: Ring, events: seq<Event>)
    requires ring.Valid() && Execute(ring, events).Some?
    requires Finished(ring, Execute(ring, events).value)
    ensures var n, w, s := |ring.ids|, Winner(ring), Execute(ring, events).value;
            && s.phase[Next(n, w)] == Relaunching
            && n < |s.sent[w]| && s.sent[w][n] == ring.votes[w].(seqn := 1)
  {
    var n, w := |ring.ids|, Winner(ring);
    var s := Reached(ring, events);
    NoDeadlock(ring, events);
    var next := Next(n, w);
    assert NodeInv(ring, w, s, w) && NodeInv(ring, w, s, next);
    assert !Enabled(ring, s, SendInitial(next)) && !Enabled(ring, s, Deliver(next));
  }

  /** Once a run is over the winner's successor is the one backup that starts over. */
  lemma OnlySuccessorRelaunches(ring: Ring, events: seq<Event>, i: nat)
    requires ring.Valid() && Execute(ring, events).Some? && i < |ring.ids|
    requires Finished(ring, Execute(ring, events).value)
    ensures Execute(ring, events).value.phase[i] == Relaunching <==> i == Next(|ring.ids|, Winner(ring))
  {
    SuccessorHears(ring, events);
    OnlySuccessorHears(ring, events, i);
    WinnerIsSmallest(ring);
    assert i == Next(|ring.ids|, Prev(|ring.ids|, i));
  }

  /** Once a run is over, the losers have all heard of the new master exactly when there is only one loser. */
  lemma AllLosersHearIffTwo(ring: Ring, events: seq<Event>)
    requires ring.Valid() && Execute(ring, events).Some?
    requires Finished(ring, Execute(ring, events).value)
    ensures var s := Execute(ring, events).value;
            (forall i :: 0 <= i < |ring.ids| && i != Winner(ring) ==> s.phase[i] == Relaunching)
            <==> |ring.ids| == 2
  {
    var n, w := |ring.ids|, Winner(ring);
    var s := Reached(ring, events);
    SuccessorHears(ring, events);
    if n > 2 {
      assert NodeInv(ring, w, s, Next(n, Next(n, w)));
    }
  }

  // ------------------------------------------------------------------ each node runs its own loop

  /** A log in which every packet answers the inbox, and only the last answer may end the vote, is the loop's log. */
  lemma {:induction false} LoopWritesAnswers(id: i32, own: Packet, inbox: seq<Packet>, out: seq<Packet>, last: Phase)
    requires |out| == |inbox| + 1 && out[0] == own
    requires inbox == [] ==> last == Voting
    requires forall k :: 0 <= k < |inbox| ==>
                           React(id, own, inbox[k]) == Answered(out[k + 1], if k + 1 == |inbox| then last else Voting)
    ensures Ballots(id, own, inbox) == Ballot(out, last, |inbox|)
  {
    if inbox != [] {
      var r := |inbox| - 1;
      LoopWritesAnswers(id, own, inbox[..r], out[..r + 1], Voting);
      assert React(id, own, inbox[r]) == Answered(out[r + 1], last);
      assert out == out[..r + 1] + [out[r + 1]];
    }
  }

  /** In any reachable state each started node is exactly where its own loop leaves it on the packets it has read. */
  lemma NodesRunTheirLoop(ring: Ring, events: seq<Event>, i: nat)
    requires ring.Valid() && Execute(ring, events).Some? && i < |ring.ids|
    requires Execute(ring, events).value.phase[i] != Starting
    ensures var s, h := Execute(ring, events).value, Prev(|ring.ids|, i);
            s.read[i] <= |s.sent[h]| &&
            Ballots(ring.ids[i], ring.votes[i], s.sent[h][..s.read[i]]) == Ballot(s.sent[i], s.phase[i], s.read[i])
  {
    var s := Reached(ring, events);
    var w, h := Winner(ring), Prev(|ring.ids|, i);
    assert NodeInv(ring, w, s, i) && NodeInv(ring, w, s, h);
    forall k | 0 <= k < s.read[i]
      ensures React(ring.ids[i], ring.votes[i], s.sent[h][k])
              == Answered(s.sent[i][k + 1], if k + 1 == s.read[i] then s.phase[i] else Voting)
    {
      ReactionFollowsStream(ring, w, i, k);
    }
    LoopWritesAnswers(ring.ids[i], ring.votes[i], s.sent[h][..s.read[i]], s.sent[i], s.phase[i]);
  }

  /** Once a run is over, each node is where its own loop ends on everything its predecessor has written. */
  lemma LoopAtTheEnd(ring: Ring, events: seq<Event>, i: nat)
    requires ring.Valid() && Execute(ring, events).Some? && i < |ring.ids|
    requires Finished(ring, Execute(ring, events).value)
    ensures var s := Execute(ring, events).value;
            Ballots(ring.ids[i], ring.votes[i], s.sent[Prev(|ring.ids|, i)])
            == Ballot(s.sent[i], s.phase[i], s.read[i])
  {
    var s := Execute(ring, events).value;
    assert !Enabled(ring, s, SendInitial(i)) && !Enabled(ring, s, Deliver(i));
    NodesRunTheirLoop(ring, events, i);
    var inbox, r := s.sent[Prev(|ring.ids|, i)], s.read[i];
    if s.phase[i] == Voting {
      assert inbox[..r] == inbox;
    } else {
      BallotsStop(ring.ids[i], ring.votes[i], inbox, r);
    }
  }
}
