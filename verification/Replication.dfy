/**
 * Replication: the master forwards each user record to every backup, one write at a time, and only then applies it.
 * Handlers of different users run concurrently, backups read at their own pace, and new backups join at any time.
 */
module Replication {
  import opened Bytes
  import opened Stores
  import opened Wrappers

  /** A handler at work on one record: it writes to the backups `next`, `next + 1`, ..., `upTo - 1`, then applies. */
  datatype Job = Job(rec: Record, next: nat, upTo: nat)

  /**
   * `applied` lists the records the master has finished, in order.  A backup's link is the log of everything written
   * to it; `disks` remembers what was on its disk when it joined.
   */
  datatype State = State(
    disk: Store, master: Store, applied: seq<Record>, online: set<User>, jobs: map<User, Job>,
    disks: seq<Store>, backups: seq<Store>, links: seq<seq<Record>>, read: seq<nat>)

  datatype Event =
    | Join(disk: Store)
    | Begin(rec: Record)
    | Send(user: User)
    | Finish(user: User)
    | Deliver(b: nat)

  function Init(disk: Store): State {
    State(disk, disk, [], {}, map[], [], [], [], [])
  }

  ghost predicate Shape(s: State) {
    && |s.disks| == |s.backups| == |s.links| == |s.read|
    && (forall b :: 0 <= b < |s.links| ==> s.read[b] <= |s.links[b]|)
    && (forall u :: u in s.jobs ==> s.jobs[u].next <= s.jobs[u].upTo <= |s.links| && s.jobs[u].rec.user == u)
  }

  /** One connection per user, one handler per connection; a user's requests come between login and logout. */
  predicate Enabled(s: State, e: Event)
    requires Shape(s)
  {
    match e
    case Join(_) => true
    case Begin(rec) => rec.user !in s.jobs && (rec.Login? <==> rec.user !in s.online)
    case Send(u) => u in s.jobs && s.jobs[u].next < s.jobs[u].upTo
    case Finish(u) => u in s.jobs && s.jobs[u].next == s.jobs[u].upTo
    case Deliver(b) => b < |s.links| && s.read[b] < |s.links[b]|
  }

  function OnlineAfter(online: set<User>, rec: Record): set<User> {
    if rec.Login? then online + {rec.user} else if rec.op.Logout? then online - {rec.user} else online
  }

  function Apply(s: State, e: Event): (s': State)
    requires Shape(s) && Enabled(s, e)
    ensures Shape(s')
  {
    match e
    case Join(disk) =>
      s.(disks := s.disks + [disk], backups := s.backups + [disk], links := s.links + [[]], read := s.read + [0])
    case Begin(rec) =>
      s.(jobs := s.jobs[rec.user := Job(rec, 0, |s.links|)])
    case Send(u) =>
      var j := s.jobs[u];
      s.(links := s.links[j.next := s.links[j.next] + [j.rec]], jobs := s.jobs[u := j.(next := j.next + 1)])
    case Finish(u) =>
      var rec := s.jobs[u].rec;
      s.(master := ApplyRecord(AtMaster, s.master, rec),
         applied := s.applied + [rec],
         online := OnlineAfter(s.online, rec),
         jobs := s.jobs - {u})
    case Deliver(b) =>
      s.(backups := s.backups[b := ApplyRecord(AtBackup, s.backups[b], s.links[b][s.read[b]])],
         read := s.read[b := s.read[b] + 1])
  }

  function Execute(disk: Store, events: seq<Event>): (r: Option<State>)
    ensures r.Some? ==> Shape(r.value)
  {
    if events == [] then Some(Init(disk))
    else
      match Execute(disk, events[..|events| - 1])
      case None => None
      case Some(s) => if Enabled(s, events[|events| - 1]) then Some(Apply(s, events[|events| - 1])) else None
  }

  // ------------------------------------------------------------------ what a link holds of one user

  /** The record of `u` the handler still has to write to backup b. */
  function StillToSend(s: State, u: User, b: nat): seq<Record> {
    if u in s.jobs && s.jobs[u].next <= b < s.jobs[u].upTo then [s.jobs[u].rec] else []
  }

  /** All records of `u` taken up so far, the one in progress included. */
  function Begun(s: State, u: User): seq<Record> {
    if u in s.jobs then Of(u, s.applied) + [s.jobs[u].rec] else Of(u, s.applied)
  }

  /** All records of `u` backup b has been sent or is about to be. */
  function Coming(s: State, u: User, b: nat): seq<Record>
    requires Shape(s) && b < |s.links|
  {
    Of(u, s.links[b]) + StillToSend(s, u, b)
  }

  ghost predicate LinkInv(s: State, u: User, b: nat)
    requires Shape(s) && b < |s.links|
  {
    && Suffix(Coming(s, u, b), Begun(s, u))
    && (u in s.jobs && s.jobs[u].upTo <= b ==> Of(u, s.links[b]) == [])
  }

  ghost predicate BackupOk(s: State, b: nat)
    requires Shape(s) && b < |s.links|
  {
    s.backups[b] == ApplyAll(AtBackup, s.disks[b], s.links[b][..s.read[b]])
  }

  ghost predicate Inv(s: State) {
    && Shape(s)
    && s.master == ApplyAll(AtMaster, s.disk, s.applied)
    && (forall b :: 0 <= b < |s.links| ==> BackupOk(s, b))
    && (forall u, b :: 0 <= b < |s.links| ==> LinkInv(s, u, b))
  }

  lemma OfAppend(u: User, rs: seq<Record>, r: Record)
    ensures Of(u, rs + [r]) == if r.user == u then Of(u, rs) + [r] else Of(u, rs)
  {
    assert (rs + [r])[..|rs|] == rs;
  }

  lemma ApplyAllAppend(role: Role, s: Store, rs: seq<Record>, r: Record)
    ensures ApplyAll(role, s, rs + [r]) == ApplyRecord(role, ApplyAll(role, s, rs), r)
  {
    assert (rs + [r])[..|rs|] == rs;
  }

  lemma SuffixGrows<T>(a: seq<T>, b: seq<T>, x: T)
    requires Suffix(a, b)
    ensures Suffix(a + [x], b + [x])
  {
    assert (b + [x])[|b| - |a|..] == b[|b| - |a|..] + [x];
  }

  /** A record that is taken up comes to every backup there is, and nothing else makes records come. */
  predicate Takes(e: Event, u: User) {
    e.Begin? && e.rec.user == u
  }

  lemma SendKeepsComing(s: State, v: User, u: User, b: nat)
    requires Shape(s) && Enabled(s, Send(v)) && b < |s.links|
    ensures Coming(Apply(s, Send(v)), u, b) == Coming(s, u, b)
    ensures Begun(Apply(s, Send(v)), u) == Begun(s, u)
  {
    var s', rec, next := Apply(s, Send(v)), s.jobs[v].rec, s.jobs[v].next;
    OfAppend(u, s.links[next], rec);
    if u == v && b == next {
      assert StillToSend(s, u, b) == [rec] && StillToSend(s', u, b) == [];
    } else {
      assert StillToSend(s', u, b) == StillToSend(s, u, b);
    }
  }

  lemma FinishKeepsComing(s: State, v: User, u: User, b: nat)
    requires Shape(s) && Enabled(s, Finish(v)) && b < |s.links|
    ensures Coming(Apply(s, Finish(v)), u, b) == Coming(s, u, b)
    ensures Begun(Apply(s, Finish(v)), u) == Begun(s, u)
  {
    var s' := Apply(s, Finish(v));
    OfAppend(u, s.applied, s.jobs[v].rec);
    assert u == v ==> u !in s'.jobs;
    assert StillToSend(s', u, b) == StillToSend(s, u, b);
  }

  /** What has been taken up and what comes to a backup grow by the same records. */
  lemma ComingGrows(s: State, e: Event, u: User, b: nat)
    requires Shape(s) && Enabled(s, e) && b < |s.links|
    ensures Takes(e, u) ==> Coming(Apply(s, e), u, b) == Coming(s, u, b) + [e.rec]
                            && Begun(Apply(s, e), u) == Begun(s, u) + [e.rec]
    ensures !Takes(e, u) ==> Coming(Apply(s, e), u, b) == Coming(s, u, b) && Begun(Apply(s, e), u) == Begun(s, u)
  {
    var s' := Apply(s, e);
    match e
    case Begin(rec) =>
      if rec.user == u {
        assert StillToSend(s, u, b) == [] && StillToSend(s', u, b) == [rec];
      } else {
        assert StillToSend(s', u, b) == StillToSend(s, u, b);
      }
    case Send(v) => SendKeepsComing(s, v, u, b);
    case Finish(v) => FinishKeepsComing(s, v, u, b);
    case Join(_) =>
    case Deliver(_) =>
  }

  lemma LatecomersKept(s: State, e: Event, u: User, b: nat)
    requires Shape(s) && Enabled(s, e) && b < |s.links| && LinkInv(s, u, b)
    ensures var s' := Apply(s, e);
            u in s'.jobs && s'.jobs[u].upTo <= b ==> Of(u, s'.links[b]) == []
  {
    if e.Send? {
      OfAppend(u, s.links[s.jobs[e.user].next], s.jobs[e.user].rec);
    }
  }

  lemma LinkInvKept(s: State, e: Event, u: User, b: nat)
    requires Shape(s) && Enabled(s, e) && b < |Apply(s, e).links|
    requires b < |s.links| ==> LinkInv(s, u, b)
    ensures LinkInv(Apply(s, e), u, b)
  {
    if b < |s.links| {
      ComingGrows(s, e, u, b);
      LatecomersKept(s, e, u, b);
      if Takes(e, u) {
        SuffixGrows(Coming(s, u, b), Begun(s, u), e.rec);
      }
    } else {
      assert Coming(Apply(s, e), u, b) == [];
    }
  }

  lemma DeliverKeepsBackup(s: State, b: nat)
    requires Shape(s) && Enabled(s, Deliver(b)) && BackupOk(s, b)
    ensures BackupOk(Apply(s, Deliver(b)), b)
  {
    var r := s.read[b];
    ApplyAllAppend(AtBackup, s.disks[b], s.links[b][..r], s.links[b][r]);
    assert s.links[b][..r] + [s.links[b][r]] == s.links[b][..r + 1];
  }

  lemma BackupKept(s: State, e: Event, b: nat)
    requires Shape(s) && Enabled(s, e) && b < |Apply(s, e).links| && (b < |s.links| ==> BackupOk(s, b))
    ensures BackupOk(Apply(s, e), b)
  {
    if e == Deliver(b) {
      DeliverKeepsBackup(s, b);
    } else if b < |s.links| {
      assert Apply(s, e).links[b][..s.read[b]] == s.links[b][..s.read[b]];
    }
  }

  lemma MasterKept(s: State, e: Event)
    requires Shape(s) && Enabled(s, e) && s.master == ApplyAll(AtMaster, s.disk, s.applied)
    ensures Apply(s, e).disk == s.disk && Apply(s, e).master == ApplyAll(AtMaster, s.disk, Apply(s, e).applied)
  {
    if e.Finish? {
      ApplyAllAppend(AtMaster, s.disk, s.applied, s.jobs[e.user].rec);
    }
  }

  lemma {:induction false} ReachableInv(disk: Store, events: seq<Event>)
    requires Execute(disk, events).Some?
    ensures Inv(Execute(disk, events).value) && Execute(disk, events).value.disk == disk
  {
    if events != [] {
      var before, e := events[..|events| - 1], events[|events| - 1];
      ReachableInv(disk, before);
      var s := Execute(disk, before).value;
      MasterKept(s, e);
      forall b | 0 <= b < |Apply(s, e).links|
        ensures BackupOk(Apply(s, e), b)
      {
        assert b < |s.links| ==> BackupOk(s, b);
        BackupKept(s, e, b);
      }
      forall u, b | 0 <= b < |Apply(s, e).links|
        ensures LinkInv(Apply(s, e), u, b)
      {
        assert b < |s.links| ==> LinkInv(s, u, b);
        LinkInvKept(s, e, u, b);
      }
    }
  }

  // ------------------------------------------------------------------ agreement

  /** The records of `u` backup b has to account for: the finished ones, and one in progress if it was sent to b. */
  function Owed(s: State, u: User, b: nat): seq<Record> {
    if u in s.jobs && b < s.jobs[u].next then Of(u, s.applied) + [s.jobs[u].rec] else Of(u, s.applied)
  }

  /**
   * At every moment of every run a link carries, of each user, exactly the latest records the master has finished,
   * plus at most the one in progress: nothing a client was answered for is missing, reordered or repeated.
   */
  lemma LinkHoldsLatest(disk: Store, events: seq<Event>, u: User, b: nat)
    requires Execute(disk, events).Some? && b < |Execute(disk, events).value.links|
    ensures Suffix(Of(u, Execute(disk, events).value.links[b]), Owed(Execute(disk, events).value, u, b))
  {
    ReachableInv(disk, events);
    assert LinkInv(Execute(disk, events).value, u, b);
    LinkInvMeansLatest(Execute(disk, events).value, u, b);
  }

  lemma LinkInvMeansLatest(s: State, u: User, b: nat)
    requires Shape(s) && b < |s.links| && LinkInv(s, u, b)
    ensures Suffix(Of(u, s.links[b]), Owed(s, u, b))
  {
    var mine := Of(u, s.links[b]);
    if u in s.jobs && s.jobs[u].next <= b < s.jobs[u].upTo {
      SuffixBeforeLast(mine, Of(u, s.applied), s.jobs[u].rec);
    } else {
      assert Coming(s, u, b) == mine;
    }
  }

  lemma SuffixBeforeLast<T>(a: seq<T>, b: seq<T>, x: T)
    requires Suffix(a + [x], b + [x])
    ensures Suffix(a, b)
  {
    assert b[|b| - |a|..] == (b + [x])[|b| - |a|..][..|a|];
  }

  lemma {:induction false} OfIsOwn(u: User, rs: seq<Record>)
    ensures forall k :: 0 <= k < |Of(u, rs)| ==> Of(u, rs)[k].user == u
  {
    if rs != [] {
      OfIsOwn(u, rs[..|rs| - 1]);
    }
  }

  /** The master's files once it has also applied the record in progress that backup b was already sent. */
  function MasterFor(s: State, u: User, b: nat): Store {
    if u in s.jobs && b < s.jobs[u].next then ApplyRecord(AtMaster, s.master, s.jobs[u].rec) else s.master
  }

  /** The last record about `f` backup b has to account for takes effect at the master, or at the backup. */
  predicate MasterTakesLast(s: State, u: User, b: nat, f: Name) {
    LastTouchLands(AtMaster, s.disk, u, Owed(s, u, b), f)
  }

  predicate BackupTakesLast(s: State, u: User, b: nat, f: Name)
    requires Shape(s) && b < |s.links|
  {
    LastTouchLands(AtBackup, s.disks[b], u, Of(u, s.links[b]), f)
  }

  /**
   * Replica agreement at any moment, so also if the master is lost at that moment.  A backup that has read its link
   * agrees with the master, up to the one record in progress, on a file of `u` its link mentions exactly when the last
   * record about that file takes effect at both or at neither; on any other file it has what its own disk had.
   */
  lemma ReplicaAgreement(disk: Store, events: seq<Event>, u: User, b: nat, f: Name)
    requires Execute(disk, events).Some? && b < |Execute(disk, events).value.links|
    requires var s := Execute(disk, events).value; s.read[b] == |s.links[b]|
    ensures var s := Execute(disk, events).value;
            var agrees := Lookup(s.backups[b], u, f) == Lookup(MasterFor(s, u, b), u, f);
            if Touched(Of(u, s.links[b]), f) then
              && (MasterTakesLast(s, u, b, f) && BackupTakesLast(s, u, b, f) ==> agrees)
              && (Housed(disk) && Housed(s.disks[b]) ==>
                    (agrees <==> (MasterTakesLast(s, u, b, f) <==> BackupTakesLast(s, u, b, f))))
            else Lookup(s.backups[b], u, f) == Lookup(s.disks[b], u, f)
  {
    ReachableInv(disk, events);
    LinkHoldsLatest(disk, events, u, b);
    var s := Execute(disk, events).value;
    assert BackupOk(s, b);
    var mine, owed := Of(u, s.links[b]), Owed(s, u, b);
    assert s.links[b][..s.read[b]] == s.links[b];
    OfIsOwn(u, s.links[b]);
    OfIsOwn(u, s.applied);
    OtherUsersDoNotMatter(AtBackup, s.disks[b], s.links[b], u, f);
    if Touched(mine, f) {
      LastWriteDecides(AtBackup, s.disks[b], u, mine, f);
      LastWriteOfSuffix(mine, owed, f);
      LastWriteDecides(AtMaster, s.disk, u, owed, f);
      MasterForOwed(s, u, b, f);
    } else {
      UntouchedStays(AtBackup, s.disks[b], u, mine, f);
    }
  }

  lemma MasterForOwed(s: State, u: User, b: nat, f: Name)
    requires Inv(s)
    ensures Lookup(MasterFor(s, u, b), u, f) == Lookup(ApplyAll(AtMaster, s.disk, Owed(s, u, b)), u, f)
  {
    if u in s.jobs && b < s.jobs[u].next {
      var rs := s.applied + [s.jobs[u].rec];
      ApplyAllAppend(AtMaster, s.disk, s.applied, s.jobs[u].rec);
      OfAppend(u, s.applied, s.jobs[u].rec);
      OtherUsersDoNotMatter(AtMaster, s.disk, rs, u, f);
    } else {
      OtherUsersDoNotMatter(AtMaster, s.disk, s.applied, u, f);
      assert Owed(s, u, b) == Of(u, s.applied);
    }
  }

  // ------------------------------------------------------------------ what a backup hears since it joined

  lemma CutLast<T>(a: seq<T>, n: nat, x: T)
    requires n <= |a|
    ensures (a + [x])[n..] == a[n..] + [x]
  {
  }

  lemma UncutLast<T>(cut: seq<T>, a: seq<T>, n: nat, x: T)
    requires n <= |a| + 1 && cut + [x] == (a + [x])[n..]
    ensures n <= |a| && cut == a[n..]
  {
    assert |cut + [x]| == |a| + 1 - n;
    assert cut == (cut + [x])[..|cut|];
    CutLast(a, n, x);
  }

  /** The latest records, the first n left out. */
  function From(rs: seq<Record>, n: nat): seq<Record> {
    if n <= |rs| then rs[n..] else []
  }

  lemma {:induction false} ComingSinceJoin(disk: Store, before: seq<Event>, d: Store, after: seq<Event>, u: User)
    requires Execute(disk, before + [Join(d)] + after).Some? && Execute(disk, before).Some?
    ensures var s, s0 := Execute(disk, before + [Join(d)] + after).value, Execute(disk, before).value;
            var b, n := |s0.links|, |Begun(s0, u)|;
            b < |s.links| && s.disks[b] == d && n <= |Begun(s, u)| && Coming(s, u, b) == Begun(s, u)[n..]
    decreases |after|
  {
    var all, s0 := before + [Join(d)] + after, Execute(disk, before).value;
    var e, earlier := all[|all| - 1], all[..|all| - 1];
    var b, n := |s0.links|, |Begun(s0, u)|;
    if after == [] {
      assert earlier == before;
      assert Coming(Apply(s0, e), u, b) == [] && Begun(Apply(s0, e), u) == Begun(s0, u);
    } else {
      assert earlier == before + [Join(d)] + after[..|after| - 1];
      ComingSinceJoin(disk, before, d, after[..|after| - 1], u);
      var s := Execute(disk, earlier).value;
      ComingGrows(s, e, u, b);
      if Takes(e, u) {
        CutLast(Begun(s, u), n, e.rec);
      }
    }
  }

  /**
   * At every moment a backup's link carries of each user exactly the records taken up since the backup joined that
   * are finished, or in progress and already sent to it.
   */
  lemma LinkHoldsAllSince(disk: Store, before: seq<Event>, d: Store, after: seq<Event>, u: User)
    requires Execute(disk, before + [Join(d)] + after).Some? && Execute(disk, before).Some?
    ensures var s, s0 := Execute(disk, before + [Join(d)] + after).value, Execute(disk, before).value;
            var b := |s0.links|;
            b < |s.links| && s.disks[b] == d && Of(u, s.links[b]) == From(Owed(s, u, b), |Begun(s0, u)|)
  {
    var all, s0 := before + [Join(d)] + after, Execute(disk, before).value;
    var s, b, n := Execute(disk, all).value, |s0.links|, |Begun(s0, u)|;
    ComingSinceJoin(disk, before, d, after, u);
    ReachableInv(disk, all);
    assert LinkInv(s, u, b);
    var mine := Of(u, s.links[b]);
    if u in s.jobs && s.jobs[u].next <= b < s.jobs[u].upTo {
      UncutLast(mine, Of(u, s.applied), n, s.jobs[u].rec);
    } else {
      assert Coming(s, u, b) == mine;
    }
  }

  /** What is finished has to be accounted for. */
  lemma FinishedIsOwed(s: State, u: User, b: nat, n: nat, f: Name)
    requires Touched(From(Of(u, s.applied), n), f)
    ensures Touched(From(Owed(s, u, b), n), f)
  {
    var k :| 0 <= k < |From(Of(u, s.applied), n)| && Touches(From(Of(u, s.applied), n)[k], f);
    assert From(Owed(s, u, b), n)[k] == Of(u, s.applied)[n + k];
  }

  ghost predicate Meets(s: State, u: User, b: nat)
    requires Shape(s) && b < |s.links|
  {
    if Coming(s, u, b) == [] then u !in s.online && u !in s.jobs else Coming(s, u, b)[0].Login?
  }

  lemma MeetsKept(s: State, e: Event, u: User, b: nat)
    requires Shape(s) && Enabled(s, e) && b < |s.links| && Meets(s, u, b)
    ensures Meets(Apply(s, e), u, b)
  {
    ComingGrows(s, e, u, b);
  }

  /** A backup that joined while `u` was logged out hears of the login before anything else about `u`. */
  lemma {:induction false} LoginComesFirst(disk: Store, before: seq<Event>, d: Store, after: seq<Event>, u: User)
    requires Execute(disk, before + [Join(d)] + after).Some? && Execute(disk, before).Some?
    requires u !in Execute(disk, before).value.online && u !in Execute(disk, before).value.jobs
    ensures var s, b := Execute(disk, before + [Join(d)] + after).value, |Execute(disk, before).value.links|;
            b < |s.links| && Meets(s, u, b)
    decreases |after|
  {
    var all, b := before + [Join(d)] + after, |Execute(disk, before).value.links|;
    var e, earlier := all[|all| - 1], all[..|all| - 1];
    if after == [] {
      assert earlier == before;
      assert Coming(Execute(disk, all).value, u, b) == [];
    } else {
      assert earlier == before + [Join(d)] + after[..|after| - 1];
      LoginComesFirst(disk, before, d, after[..|after| - 1], u);
      MeetsKept(Execute(disk, earlier).value, e, u, b);
    }
  }

  /**
   * So such a backup, once it has read its link, agrees with the master on a file of `u` changed since if and only if
   * the last change took effect at the master: a change the master refused was sent to the backups all the same.
   */
  lemma EarlyBackupAgrees(disk: Store, before: seq<Event>, d: Store, after: seq<Event>, u: User, f: Name)
    requires Execute(disk, before + [Join(d)] + after).Some? && Execute(disk, before).Some?
    requires u !in Execute(disk, before).value.online && u !in Execute(disk, before).value.jobs
    requires var s, s0 := Execute(disk, before + [Join(d)] + after).value, Execute(disk, before).value;
             var b := |s0.links|;
             b < |s.links| && s.read[b] == |s.links[b]| && Touched(From(Owed(s, u, b), |Begun(s0, u)|), f)
    ensures var s, b := Execute(disk, before + [Join(d)] + after).value, |Execute(disk, before).value.links|;
            var agrees := Lookup(s.backups[b], u, f) == Lookup(MasterFor(s, u, b), u, f);
            && (MasterTakesLast(s, u, b, f) ==> agrees)
            && (Housed(disk) && Housed(d) ==> (agrees <==> MasterTakesLast(s, u, b, f)))
  {
    var all := before + [Join(d)] + after;
    var s, b := Execute(disk, all).value, |Execute(disk, before).value.links|;
    LinkHoldsAllSince(disk, before, d, after, u);
    LoginComesFirst(disk, before, d, after, u);
    var mine := Of(u, s.links[b]);
    assert mine[0] == Coming(s, u, b)[0];
    OpenedFirstLands(AtBackup, d, u, mine, f);
    ReplicaAgreement(disk, all, u, b, f);
  }

  // ------------------------------------------------------------------ runs that disagree

  lemma OneMore(disk: Store, events: seq<Event>, s: State, e: Event) returns (longer: seq<Event>, s': State)
    requires Execute(disk, events) == Some(s) && Enabled(s, e)
    ensures longer == events + [e] && s' == Apply(s, e) && Execute(disk, longer) == Some(s')
  {
    longer, s' := events + [e], Apply(s, e);
    assert longer[..|longer| - 1] == events;
  }

  /** The master takes up, forwards to its only backup and applies one record, and the backup reads it. */
  lemma OneRecord(disk: Store, events: seq<Event>, s: State, rec: Record) returns (longer: seq<Event>, s': State)
    requires Execute(disk, events) == Some(s) && s.jobs == map[] && (rec.Login? <==> rec.user !in s.online)
    requires |s.links| == 1 && s.read[0] == |s.links[0]|
    ensures Execute(disk, longer) == Some(s') && s'.jobs == map[] && s'.online == OnlineAfter(s.online, rec)
    ensures |s'.links| == 1 && s'.links[0] == s.links[0] + [rec]
    ensures |s'.read| == 1 && s'.read[0] == |s'.links[0]|
    ensures s'.master == ApplyRecord(AtMaster, s.master, rec)
    ensures |s'.backups| == 1 && s'.backups[0] == ApplyRecord(AtBackup, s.backups[0], rec)
  {
    longer, s' := OneMore(disk, events, s, Begin(rec));
    longer, s' := OneMore(disk, longer, s', Send(rec.user));
    longer, s' := OneMore(disk, longer, s', Finish(rec.user));
    longer, s' := OneMore(disk, longer, s', Deliver(0));
  }

  const EMPTY_DISK := Store({}, map[])

  /** A user has logged in at a master that has the user's directory, and then the first backup joins. */
  lemma JoinedInSession(disk: Store, u: User) returns (events: seq<Event>, s: State)
    ensures Execute(disk, events) == Some(s) && s.jobs == map[] && s.online == {u}
    ensures |s.links| == 1 && s.links[0] == [] && s.read[0] == 0 && s.backups[0] == EMPTY_DISK && s.master == disk
  {
    events, s := OneMore(disk, [], Init(disk), Begin(Login(u)));
    events, s := OneMore(disk, events, s, Finish(u));
    events, s := OneMore(disk, events, s, Join(EMPTY_DISK));
  }

  lemma UploadIsMissed(u: User, f: Name, data: bytes) returns (disk: Store, events: seq<Event>, s: State)
    ensures Housed(disk) && Execute(disk, events) == Some(s) && s.jobs == map[] && s.online == {u}
    ensures |s.links| == 1 && s.links[0] == [Client(u, Upload(f, data))] && s.read[0] == 1
    ensures Lookup(s.master, u, f) == Some(data) && s.backups[0] == EMPTY_DISK
  {
    disk := Store({u}, map[]);
    var upload := Client(u, Upload(f, data));
    events, s := JoinedInSession(disk, u);
    assert s.links[0] + [upload] == [upload];
    events, s := OneRecord(disk, events, s, upload);
  }

  /**
   * There is no state transfer: a backup that joins in the middle of a user's session does not have the user's
   * directory and loses the session's uploads, and the next login, which creates it, does not bring them back.
   */
  lemma LateBackupDisagrees(u: User, f: Name, data: bytes) returns (disk: Store, events: seq<Event>, s: State)
    ensures Housed(disk) && Execute(disk, events) == Some(s) && s.jobs == map[]
    ensures |s.links| == 1 && s.links[0] == [Client(u, Upload(f, data)), Client(u, Logout), Login(u)] && s.read[0] == 3
    ensures Lookup(s.master, u, f) == Some(data) && Lookup(s.backups[0], u, f) == None
  {
    disk, events, s := UploadIsMissed(u, f, data);
    var upload, logout := Client(u, Upload(f, data)), Client(u, Logout);
    assert s.links[0] + [logout] == [upload, logout];
    events, s := OneRecord(disk, events, s, logout);
    assert s.links[0] + [Login(u)] == [upload, logout, Login(u)];
    events, s := OneRecord(disk, events, s, Login(u));
  }

  lemma JoinedBeforeLogin(u: User) returns (events: seq<Event>, s: State)
    ensures Execute(EMPTY_DISK, events) == Some(s) && s.jobs == map[] && s.online == {u}
    ensures |s.links| == 1 && s.links[0] == [Login(u)] && s.read[0] == 1
    ensures s.backups[0] == Store({u}, map[]) && s.master == EMPTY_DISK
  {
    events, s := OneMore(EMPTY_DISK, [], Init(EMPTY_DISK), Join(EMPTY_DISK));
    assert s.links[0] + [Login(u)] == [Login(u)];
    events, s := OneRecord(EMPTY_DISK, events, s, Login(u));
  }

  /** An upload before the first SYNC_DIR_REQ is refused by the master and stored by its backups. */
  lemma RefusedUploadIsReplicated(u: User, f: Name, data: bytes) returns (events: seq<Event>, s: State)
    ensures Execute(EMPTY_DISK, events) == Some(s) && s.jobs == map[]
    ensures |s.links| == 1 && s.links[0] == [Login(u), Client(u, Upload(f, data))] && s.read[0] == 2
    ensures Lookup(s.master, u, f) == None && Lookup(s.backups[0], u, f) == Some(data)
  {
    var upload := Client(u, Upload(f, data));
    events, s := JoinedBeforeLogin(u);
    assert s.links[0] + [upload] == [Login(u), upload];
    events, s := OneRecord(EMPTY_DISK, events, s, upload);
  }

  // ------------------------------------------------------------------ every request can be completed

  lemma {:induction false} JobCanFinish(disk: Store, events: seq<Event>, s: State, u: User)
    returns (longer: seq<Event>, s': State)
    requires Execute(disk, events) == Some(s) && u in s.jobs
    ensures Execute(disk, longer) == Some(s') && events <= longer
    ensures s'.disks == s.disks && s'.jobs == s.jobs - {u} && s'.applied == s.applied + [s.jobs[u].rec]
    decreases s.jobs[u].upTo - s.jobs[u].next
  {
    longer, s' := OneMore(disk, events, s, if s.jobs[u].next == s.jobs[u].upTo then Finish(u) else Send(u));
    if s.jobs[u].next < s.jobs[u].upTo {
      assert s'.jobs - {u} == s.jobs - {u};
      longer, s' := JobCanFinish(disk, longer, s', u);
    }
  }

  lemma {:induction false} JobsCanFinish(disk: Store, events: seq<Event>, s: State)
    returns (longer: seq<Event>, s': State)
    requires Execute(disk, events) == Some(s)
    ensures Execute(disk, longer) == Some(s') && events <= longer
    ensures s'.disks == s.disks && s'.jobs == map[] && |s'.applied| == |s.applied| + |s.jobs|
    decreases |s.jobs|
  {
    longer, s' := events, s;
    if s.jobs != map[] {
      var u :| u in s.jobs;
      assert (s.jobs - {u}).Keys == s.jobs.Keys - {u};
      longer, s' := JobCanFinish(disk, longer, s', u);
      longer, s' := JobsCanFinish(disk, longer, s');
    }
  }

  lemma {:induction false} LinkCanDrain(disk: Store, events: seq<Event>, s: State, b: nat)
    returns (longer: seq<Event>, s': State)
    requires Execute(disk, events) == Some(s) && b < |s.links|
    ensures Execute(disk, longer) == Some(s') && events <= longer
    ensures s'.disks == s.disks && s'.jobs == s.jobs && s'.applied == s.applied && s'.links == s.links
    ensures s'.read == s.read[b := |s.links[b]|]
    decreases |s.links[b]| - s.read[b]
  {
    longer, s' := events, s;
    if s.read[b] < |s.links[b]| {
      longer, s' := OneMore(disk, events, s, Deliver(b));
      longer, s' := LinkCanDrain(disk, longer, s', b);
    }
  }

  lemma {:induction false} LinksCanDrain(disk: Store, events: seq<Event>, s: State, n: nat)
    returns (longer: seq<Event>, s': State)
    requires Execute(disk, events) == Some(s) && n <= |s.links|
    ensures Execute(disk, longer) == Some(s') && events <= longer
    ensures s'.disks == s.disks && s'.jobs == s.jobs && s'.applied == s.applied && s'.links == s.links
    ensures forall b :: 0 <= b < n ==> s'.read[b] == |s'.links[b]|
  {
    longer, s' := events, s;
    if n > 0 {
      longer, s' := LinksCanDrain(disk, events, s, n - 1);
      longer, s' := LinkCanDrain(disk, longer, s', n - 1);
    }
  }

  /**
   * Nothing blocks: from any state of any run the requests in progress can be completed and every link read to its
   * end, without another backup or request: the state in which the agreement results speak of all backups.
   */
  lemma EverythingCanFinish(disk: Store, events: seq<Event>) returns (longer: seq<Event>, s': State)
    requires Execute(disk, events).Some?
    ensures Execute(disk, longer) == Some(s') && events <= longer
    ensures s'.jobs == map[] && forall b :: 0 <= b < |s'.links| ==> s'.read[b] == |s'.links[b]|
    ensures var s := Execute(disk, events).value;
            s'.disks == s.disks && |s'.applied| == |s.applied| + |s.jobs|
  {
    longer, s' := JobsCanFinish(disk, events, Execute(disk, events).value);
    longer, s' := LinksCanDrain(disk, longer, s', |s'.links|);
  }
}
