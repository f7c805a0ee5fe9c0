/** The files of a real backup object: what its keepalive loop read, taken back to the records the master forwarded. */
module Replicas {
  import opened Bytes
  import opened Packets
  import opened Signing
  import I = InternalRouters
  import L = Logins
  import P = Replication
  import R = Records
  import S = Stores

  /** What the master forwards: a login with the client's address, or a request as it came from the client. */
  datatype Message = LoginOf(user: bytes, addr: bytes, pad: bytes) | RequestOf(user: bytes, p: Packet, pad: bytes)

  predicate Sound(m: Message) {
    && |m.pad| == 4 && '\0' !in m.user
    && match m
       case LoginOf(user, addr, _) => Signable(R.LoginPacket(addr), user)
       case RequestOf(user, p, _) => R.WellFormed(p) && p.ptype != LOGIN_REQ && Signable(p, user)
  }

  /** The record the master applies, and the packet its backups get. */
  function RecordMeant(m: Message): S.Record
    requires Sound(m)
  {
    match m
    case LoginOf(user, _, _) => S.Login(user)
    case RequestOf(user, p, _) => S.Client(user, R.OpOf(p))
  }

  function PacketSent(m: Message): Packet
    requires Sound(m)
  {
    match m
    case LoginOf(user, addr, pad) => Sign(R.LoginPacket(addr), pad, user)
    case RequestOf(user, p, pad) => Sign(p, pad, user)
  }

  ghost predicate AllSound(ms: seq<Message>) {
    forall k :: 0 <= k < |ms| ==> Sound(ms[k])
  }

  function RecordsMeant(ms: seq<Message>): seq<S.Record>
    requires AllSound(ms)
  {
    if ms == [] then [] else RecordsMeant(ms[..|ms| - 1]) + [RecordMeant(ms[|ms| - 1])]
  }

  function PacketsSent(ms: seq<Message>): (ps: seq<Packet>)
    requires AllSound(ms)
    ensures |ps| == |ms|
  {
    if ms == [] then [] else PacketsSent(ms[..|ms| - 1]) + [PacketSent(ms[|ms| - 1])]
  }

  /** The signed packets a watch has read, among silent windows and ring packets. */
  function SignedIn(windows: seq<I.Window>): seq<Packet> {
    if windows == [] then []
    else
      var before, w := SignedIn(windows[..|windows| - 1]), windows[|windows| - 1];
      if w.Data? && w.p.ptype == SIGNED_PACKET then before + [w.p] else before
  }

  lemma MessageIsUnderstood(m: Message)
    requires Sound(m)
    ensures var w := PacketSent(m);
            && w.ptype == SIGNED_PACKET && R.WellFormedAtBackup(w)
            && forall s :: S.ApplyRecord(S.AtBackup, s, R.RecordOf(w)) == S.ApplyRecord(S.AtBackup, s, RecordMeant(m))
  {
    match m
    case LoginOf(user, addr, pad) => R.BackupDecodesLogin(addr, pad, user);
    case RequestOf(user, p, pad) => R.BackupDecodesSameRequest(p, pad, user);
  }

  lemma MessageIsRead(m: Message)
    requires Sound(m)
    ensures WellSigned(PacketSent(m))
    ensures var x := Extract(PacketSent(m));
            && x.user == m.user && (x.p.ptype == LOGIN_REQ <==> m.LoginOf?)
            && (m.LoginOf? ==> x.p.payload == m.addr)
  {
    match m
    case LoginOf(user, addr, pad) => SignatureRoundTrip(R.LoginPacket(addr), pad, user);
    case RequestOf(user, p, pad) => SignatureRoundTrip(p, pad, user);
  }

  lemma LastWasSent(windows: seq<I.Window>, ms: seq<Message>)
    requires AllSound(ms) && SignedIn(windows) == PacketsSent(ms)
    requires windows != [] && windows[|windows| - 1].Data? && windows[|windows| - 1].p.ptype == SIGNED_PACKET
    ensures ms != [] && windows[|windows| - 1].p == PacketSent(ms[|ms| - 1])
    ensures SignedIn(windows[..|windows| - 1]) == PacketsSent(ms[..|ms| - 1])
  {
    var ps := SignedIn(windows);
    assert ps[|ps| - 1] == windows[|windows| - 1].p;
    assert ps[..|ps| - 1] == SignedIn(windows[..|windows| - 1]);
    assert ps[..|ps| - 1] == PacketsSent(ms[..|ms| - 1]);
  }

  lemma {:induction false} SignedWindowIsListed(windows: seq<I.Window>, k: nat)
    requires k < |windows| && windows[k].Data? && windows[k].p.ptype == SIGNED_PACKET
    ensures windows[k].p in SignedIn(windows)
  {
    var ps, m := SignedIn(windows), |windows| - 1;
    if k < m {
      SignedWindowIsListed(windows[..m], k);
    } else {
      assert ps[|ps| - 1] == windows[k].p;
    }
  }

  lemma {:induction false} PacketsSentAre(ms: seq<Message>)
    requires AllSound(ms)
    ensures forall j :: 0 <= j < |ms| ==> PacketsSent(ms)[j] == PacketSent(ms[j])
  {
    if ms != [] {
      PacketsSentAre(ms[..|ms| - 1]);
    }
  }

  lemma WindowsAreWellFormed(windows: seq<I.Window>, ms: seq<Message>)
    requires AllSound(ms) && SignedIn(windows) == PacketsSent(ms)
    ensures forall k :: 0 <= k < |windows| && windows[k].Data? ==> R.WellFormedAtBackup(windows[k].p)
  {
    forall k | 0 <= k < |windows| && windows[k].Data?
      ensures R.WellFormedAtBackup(windows[k].p)
    {
      if windows[k].p.ptype == SIGNED_PACKET {
        SignedWindowIsListed(windows, k);
        PacketsSentAre(ms);
        var j :| 0 <= j < |ms| && PacketsSent(ms)[j] == windows[k].p;
        MessageIsUnderstood(ms[j]);
      }
    }
  }

  /**
   * Whatever else came in between, a watch that has read the signed copies of some messages has made of its store what
   * the records of those messages make of it, taken as the master takes them.
   */
  lemma {:induction false} WatchAppliesMessages(r: I.Replica, windows: seq<I.Window>, ms: seq<Message>)
    requires AllSound(ms) && SignedIn(windows) == PacketsSent(ms)
    ensures forall k :: 0 <= k < |windows| && windows[k].Data? ==> R.WellFormedAtBackup(windows[k].p)
    ensures I.OnWindows(r, windows).store == S.ApplyAll(S.AtBackup, r.store, RecordsMeant(ms))
  {
    WindowsAreWellFormed(windows, ms);
    if windows == [] {
      assert ms == [];
    } else {
      var before, w := windows[..|windows| - 1], windows[|windows| - 1];
      if w.Data? && w.p.ptype == SIGNED_PACKET {
        LastWasSent(windows, ms);
        WatchAppliesMessages(r, before, ms[..|ms| - 1]);
        MessageIsUnderstood(ms[|ms| - 1]);
        P.ApplyAllAppend(S.AtBackup, r.store, RecordsMeant(ms[..|ms| - 1]), RecordMeant(ms[|ms| - 1]));
      } else {
        WatchAppliesMessages(r, before, ms);
      }
    }
  }

  /** The logins among the messages. */
  function LoginsMeant(ms: seq<Message>): seq<L.Login> {
    if ms == [] then []
    else
      var before, m := LoginsMeant(ms[..|ms| - 1]), ms[|ms| - 1];
      if m.LoginOf? then before + [L.Login(m.user, m.addr)] else before
  }

  lemma LastWindow(w: I.Window, m: Message)
    requires Sound(m) && w.Data? && w.p == PacketSent(m)
    ensures R.WellFormedAtBackup(w.p)
    ensures I.LoginIn(w) == if m.LoginOf? then [L.Login(m.user, m.addr)] else []
  {
    MessageIsUnderstood(m);
    MessageIsRead(m);
  }

  lemma {:induction false} LoginsReadAreMeant(windows: seq<I.Window>, ms: seq<Message>)
    requires AllSound(ms) && SignedIn(windows) == PacketsSent(ms)
    requires forall k :: 0 <= k < |windows| && windows[k].Data? ==> R.WellFormedAtBackup(windows[k].p)
    ensures I.LoginsIn(windows) == LoginsMeant(ms)
  {
    if windows == [] {
      assert ms == [];
    } else {
      var before, w := windows[..|windows| - 1], windows[|windows| - 1];
      if w.Data? && w.p.ptype == SIGNED_PACKET {
        LastWasSent(windows, ms);
        LoginsReadAreMeant(before, ms[..|ms| - 1]);
        LastWindow(w, ms[|ms| - 1]);
      } else {
        LoginsReadAreMeant(before, ms);
        assert I.LoginIn(w) == [];
      }
    }
  }

  /**
   * After such a watch of a fresh backup the login context holds for each user the addresses of that user's logins
   * among the messages, in order, and no other user; requests leave no trace in it.
   */
  lemma WatchKeepsAddresses(r: I.Replica, windows: seq<I.Window>, ms: seq<Message>, u: bytes)
    requires AllSound(ms) && SignedIn(windows) == PacketsSent(ms) && r.users == map[]
    ensures forall k :: 0 <= k < |windows| && windows[k].Data? ==> R.WellFormedAtBackup(windows[k].p)
    ensures var users, addresses := I.OnWindows(r, windows).users, L.AddressesOf(u, LoginsMeant(ms));
            (u in users <==> addresses != []) && (u in users ==> users[u] == addresses)
  {
    WindowsAreWellFormed(windows, ms);
    I.WatchKeepsLogins(r, windows);
    LoginsReadAreMeant(windows, ms);
    L.LoginsKeepOrder(LoginsMeant(ms), u);
  }

  /**
   * Replica agreement for a real backup: a router that has the disk of backup b and watches until it has read the
   * packets of the records on b's link holds what the replication protocol says b holds.  So it has the master's
   * version of a file mentioned there exactly when the last record about it takes effect at both or at neither.
   */
  method WatchAgrees(router: I.InternalRouter, windows: seq<I.Window>, ghost ms: seq<Message>,
                     ghost disk: S.Store, ghost events: seq<P.Event>, ghost b: nat)
    returns (end: I.Watch, used: nat)
    requires !router.crashed && AllSound(ms) && SignedIn(windows) == PacketsSent(ms)
    requires P.Execute(disk, events).Some? && b < |P.Execute(disk, events).value.links|
    requires var s := P.Execute(disk, events).value;
             s.links[b] == RecordsMeant(ms) && s.read[b] == |s.links[b]| && router.store == s.disks[b]
    requires S.Housed(disk) && S.Housed(router.store)
    modifies router`adjacent, router`crashed, router`users, router`store
    ensures used <= |windows|
    ensures used == |windows| ==>
              var s := P.Execute(disk, events).value;
              && router.store == s.backups[b]
              && forall u, f :: S.Touched(S.Of(u, s.links[b]), f) ==>
                   (S.Lookup(router.store, u, f) == S.Lookup(P.MasterFor(s, u, b), u, f)
                    <==> (P.MasterTakesLast(s, u, b, f) <==> P.BackupTakesLast(s, u, b, f)))
  {
    WatchAppliesMessages(router.State(), windows, ms);
    end, used := router.Keepalive(windows);
    if used == |windows| {
      assert windows[..used] == windows;
      ghost var s := P.Execute(disk, events).value;
      P.ReachableInv(disk, events);
      assert P.BackupOk(s, b);
      assert s.links[b][..s.read[b]] == s.links[b];
      forall u, f | S.Touched(S.Of(u, s.links[b]), f)
        ensures S.Lookup(router.store, u, f) == S.Lookup(P.MasterFor(s, u, b), u, f)
                <==> (P.MasterTakesLast(s, u, b, f) <==> P.BackupTakesLast(s, u, b, f))
      {
        P.ReplicaAgreement(disk, events, u, b, f);
      }
    }
  }
}
