/**
 * The object a server runs its internal traffic on (server/comms/router/internal_router.cpp): as a backup it watches
 * the master, applies what the master forwards and takes part in the vote; as master it admits and feeds backups.
 */
module InternalRouters {
  import opened Bytes
  import opened Packets
  import opened Addresses
  import opened Signing
  import opened Voting
  import J = Joining
  import L = Logins
  import R = Records
  import S = Stores

  // ------------------------------------------------------------------ the keepalive loop

  /** One turn of the loop: a packet, a read that failed, or a silent window, with the probe's write if there is one. */
  datatype Window = Data(p: Packet) | ReadFailed | Silent(probeSent: bool)

  datatype Watch = Watching | GaveUp | Died

  /** The backup gives the master up on window k: an error, or the second silent window in a row. */
  predicate GivesUpAt(windows: seq<Window>, k: nat)
    requires k < |windows|
  {
    || windows[k].ReadFailed?
    || windows[k] == Silent(false)
    || (windows[k].Silent? && k > 0 && windows[k - 1].Silent?)
  }

  /** A backup never gives up exactly when nothing fails and every silent window is followed by an answer. */
  lemma GivesUpIffUnanswered(windows: seq<Window>)
    ensures (forall k :: 0 <= k < |windows| ==> !GivesUpAt(windows, k))
            <==> && (forall k :: 0 <= k < |windows| ==> windows[k] != ReadFailed && windows[k] != Silent(false))
                 && (forall k :: 0 <= k < |windows| - 1 && windows[k].Silent? ==> windows[k + 1].Data?)
  {
    if forall k :: 0 <= k < |windows| ==> !GivesUpAt(windows, k) {
      forall k | 0 <= k < |windows| - 1 && windows[k].Silent?
        ensures windows[k + 1].Data?
      {
        assert !GivesUpAt(windows, k + 1);
      }
      forall k | 0 <= k < |windows|
        ensures windows[k] != ReadFailed && windows[k] != Silent(false)
      {
        assert !GivesUpAt(windows, k);
      }
    } else {
      var k :| 0 <= k < |windows| && GivesUpAt(windows, k);
      if !windows[k].ReadFailed? && windows[k] != Silent(false) {
        assert windows[k - 1].Silent? && !windows[(k - 1) + 1].Data?;
      }
    }
  }

  /** Everything a packet from the master can change at a backup. */
  datatype Replica = Replica(ring: J.Backup, store: S.Store, users: L.Users)

  function OnPacket(r: Replica, p: Packet): Replica
    requires R.WellFormedAtBackup(p)
  {
    if p.ptype != SIGNED_PACKET then r.(ring := J.Receive(r.ring, p))
    else
      var signed := Extract(p);
      Replica(r.ring, S.ApplyRecord(S.AtBackup, r.store, R.RecordOf(p)),
              if signed.p.ptype == LOGIN_REQ then L.AddLogin(r.users, L.Login(signed.user, signed.p.payload))
              else r.users)
  }

  function OnWindows(r: Replica, windows: seq<Window>): Replica
    requires forall k :: 0 <= k < |windows| && windows[k].Data? ==> R.WellFormedAtBackup(windows[k].p)
  {
    if windows == [] then r
    else
      var before, w := OnWindows(r, windows[..|windows| - 1]), windows[|windows| - 1];
      if w.Data? then OnPacket(before, w.p) else before
  }

  /** What reset_connection was last given. */
  datatype Dialled = Dialled(ip: bytes, port: int)

  /** std::atoi; the code's stoi throws where this gives 0, or is undefined because the value does not fit. */
  function AtoI(s: bytes): i32 {
    match StoI(s)
    case Number(n) => n
    case NoNumber => 0
  }

  /** The text falls apart at its last colon. */
  predicate SplitsAtLast(text: bytes, head: bytes, tail: bytes) {
    text == head + ":" + tail && ':' !in tail
  }

  /** `d` is the address an announcement names: what follows its last colon is the port, what precedes it the host. */
  ghost predicate Names(text: bytes, d: Dialled) {
    && (forall a: Peer :: text == Render(a) ==> d == Dialled(a.ip, a.port))
    && (forall head, tail :: SplitsAtLast(text, head, tail) ==> d == Dialled(head, AtoI(tail)))
    && (':' !in text ==> d == Dialled(text, AtoI(text)))
  }

  /** What `rfind(":")` makes of it. */
  function LastNamed(text: bytes): Dialled {
    var k := LastColon(text);
    if k == |text| then Dialled(text, AtoI(text)) else Dialled(text[..k], AtoI(text[k + 1..]))
  }

  lemma NamedBySplit(text: bytes, head: bytes, tail: bytes)
    requires SplitsAtLast(text, head, tail)
    ensures LastNamed(text) == Dialled(head, AtoI(tail))
  {
    LastSplits(head, tail);
    var k := LastColon(text);
    assert text[..k] == head && text[k + 1..] == tail;
  }

  lemma NamedByRender(a: Peer)
    ensures LastNamed(Render(a)) == Dialled(a.ip, a.port)
  {
    StoIOfToString(a.port);
    NamedBySplit(Render(a), a.ip, ToString(a.port));
  }

  lemma LastColonNames(text: bytes)
    ensures Names(text, LastNamed(text))
  {
    forall head, tail | SplitsAtLast(text, head, tail)
      ensures LastNamed(text) == Dialled(head, AtoI(tail))
    {
      NamedBySplit(text, head, tail);
    }
    forall a: Peer | text == Render(a)
      ensures LastNamed(text) == Dialled(a.ip, a.port)
    {
      NamedByRender(a);
    }
  }

  /** What a backup makes of a client's request or login, in its files and in the login context. */
  ghost predicate HandlesSigned(s: Signed, store: S.Store, store': S.Store, users: L.Users, users': L.Users)
    requires R.WellFormed(s.p)
  {
    && (s.p.ptype == UPLOAD_REQ ==>
          && store'.dirs == store.dirs
          && store'.files == if s.user !in store.dirs then store.files
                             else var f := R.F.Deserialize(s.p.payload); store.files[(s.user, f.name) := f.data])
    && (s.p.ptype == DELETE_REQ ==>
          store'.dirs == store.dirs && store'.files == store.files - {(s.user, Text(s.p))})
    && (s.p.ptype == LOGIN_REQ ==>
          && store'.dirs == store.dirs + {s.user} && store'.files == store.files
          && users' == users[s.user := (if s.user in users then users[s.user] else []) + [s.p.payload]])
    && (s.p.ptype != LOGIN_REQ ==> users' == users)
    && (s.p.ptype != UPLOAD_REQ && s.p.ptype != DELETE_REQ && s.p.ptype != LOGIN_REQ ==> store' == store)
  }

  /** The backup before the newcomer hears of it; the newcomer hears of the first backup, and then gets its id. */
  predicate WelcomesNewcomer(others: seq<Peer>, replies: seq<J.Letter>)
    requires 0 < |others| < TWO_31
  {
    var n, newcomer := |others| - 1, others[|others| - 1];
    var id := J.Letter(n, BuildPacket(YOUR_ID_RESP, 0, n, newcomer.ip));
    if n == 0 then replies == [id]
    else
      replies == [J.Letter(n - 1, BuildPacket(JOIN_RESP, 0, 1, Render(newcomer))),
                  J.Letter(n, BuildPacket(JOIN_RESP, 0, 1, Render(others[0]))), id]
  }

  lemma RepliesWelcome(others: seq<Peer>)
    requires 0 < |others| < TWO_31
    ensures WelcomesNewcomer(others, J.JoinReplies(others))
  {
  }

  /** A request that renders a peer is understood as that peer. */
  lemma FirstColonReads(text: bytes)
    ensures forall a: Peer :: text == Render(a) && ':' !in a.ip ==> ParseFirst(text) == Parsed(a)
  {
    forall a: Peer | text == Render(a) && ':' !in a.ip
      ensures ParseFirst(text) == Parsed(a)
    {
      AddressRoundTrip(a);
    }
  }

  /**
   * What an unsigned packet read by the keepalive loop does to a tracking backup: a notice moves the neighbour, an
   * unreadable one is the end, and nothing else has any effect.
   */
  lemma UnsignedDoes(r: Replica, p: Packet)
    requires p.ptype != SIGNED_PACKET && r.ring.stage == J.Tracking
    ensures p.ptype != JOIN_RESP ==> OnPacket(r, p) == r
    ensures p.ptype == JOIN_RESP && ParseFirst(Text(p)) == Thrown ==>
              OnPacket(r, p) == r.(ring := r.ring.(stage := J.Crashed))
    ensures p.ptype == JOIN_RESP ==>
              forall a: Peer :: Text(p) == Render(a) && ':' !in a.ip ==>
                                  OnPacket(r, p) == r.(ring := r.ring.(adjacent := a))
  {
    FirstColonReads(Text(p));
  }

  /** And a signed one: it is carried out, and leaves the neighbour alone. */
  lemma SignedDoes(r: Replica, p: Packet)
    requires p.ptype == SIGNED_PACKET && R.WellFormedAtBackup(p)
    ensures var r' := OnPacket(r, p);
            r'.ring == r.ring && HandlesSigned(Extract(p), r.store, r'.store, r.users, r'.users)
  {
  }

  class InternalRouter {
    const port: i32
    var id: i32
    var ip: bytes
    var adjacent: Peer
    var isMaster: bool
    var relaunch: bool
    var crashed: bool
    var dialled: Dialled
    var users: L.Users
    var store: S.Store
    var others: seq<Peer>

    constructor (port: i32, store: S.Store)
      ensures this.port == port && this.store == store && adjacent == J.NO_PEER
      ensures !isMaster && !relaunch && !crashed && users == map[] && others == []
    {
      this.port, this.store := port, store;
      id, ip, adjacent, dialled := 0, [], J.NO_PEER, Dialled([], 0);
      isMaster, relaunch, crashed, users, others := false, false, false, map[], [];
    }

    function State(): Replica
      reads this
    {
      Replica(J.Backup(if crashed then J.Crashed else J.Tracking, id, ip, adjacent), store, users)
    }

    /**
     * main's side of the join on a new connection: a JOIN_RESP first, if there is one, then the id.  `inbox` is what
     * the master has written; the two reads block until it is there.
     */
    method ReadJoinReplies(inbox: seq<Packet>) returns (read: nat)
      requires inbox != [] && (inbox[0].ptype == JOIN_RESP ==> |inbox| > 1) && !crashed
      modifies this`id, this`ip, this`adjacent, this`crashed
      ensures read <= |inbox|
      ensures State().ring
              == J.ReceiveAll(J.Backup(J.FirstReply, old(id), old(ip), old(adjacent)), inbox[..read])
      ensures inbox[0].ptype != JOIN_RESP ==> read == 1 && adjacent == old(adjacent) && !crashed
      ensures inbox[0].ptype == JOIN_RESP && ParseFirst(Text(inbox[0])) == Thrown ==>
                read == 1 && adjacent == old(adjacent) && id == old(id) && ip == old(ip) && crashed
      ensures inbox[0].ptype == JOIN_RESP ==>
                forall a: Peer :: Text(inbox[0]) == Render(a) && ':' !in a.ip ==>
                                    read == 2 && adjacent == a && !crashed
      ensures !crashed ==> 0 < read && var p := inbox[read - 1];
                           if p.ptype == YOUR_ID_RESP then id == ToI32(p.total) && ip == Text(p)
                           else id == old(id) && ip == old(ip)
    {
      FirstColonReads(Text(inbox[0]));
      var p := inbox[0];
      read := 1;
      ghost var before := J.Backup(J.FirstReply, id, ip, adjacent);
      assert inbox[..1] == [p] && [p][1..] == [];
      if p.ptype == JOIN_RESP {
        match ParseFirst(Text(p)) {
          case Thrown =>
            crashed := true;
            return;
          case Parsed(peer) =>
            adjacent := peer;
        }
        p := inbox[1];
        read := 2;
        assert inbox[..2] == [inbox[0]] + [p];
        J.ReceiveAllAppend(before, [inbox[0]], p);
        assert J.ReceiveAll(before, [inbox[0]]) == J.Receive(before, inbox[0]);
      }
      if p.ptype == YOUR_ID_RESP {
        id, ip := ToI32(p.total), Text(p);
      }
    }

    /** What one packet read by keepalive does. */
    method HandlePacket(p: Packet)
      requires R.WellFormedAtBackup(p) && !crashed
      modifies this`adjacent, this`crashed, this`users, this`store
      ensures State() == OnPacket(old(State()), p)
      ensures p.ptype != SIGNED_PACKET && p.ptype != JOIN_RESP ==> State() == old(State())
    {
      if p.ptype == SIGNED_PACKET {
        var signed := ExtractSignature(p);
        var user := signed.user;
        if signed.p.ptype == UPLOAD_REQ {
          var f := R.F.Deserialize(signed.p.payload);
          if user in store.dirs {
            store := store.(files := store.files[(user, f.name) := f.data]);
          }
        } else if signed.p.ptype == DELETE_REQ {
          store := store.(files := store.files - {(user, Text(signed.p))});
        } else if signed.p.ptype == LOGIN_REQ {
          store := store.(dirs := store.dirs + {user});
          if user in users {
            users := users[user := users[user] + [signed.p.payload]];
          } else {
            users := users[user := [signed.p.payload]];
            assert [] + [signed.p.payload] == [signed.p.payload];
          }
        }
      } else if p.ptype == JOIN_RESP {
        match ParseFirst(Text(p))
        case Parsed(peer) => adjacent := peer;
        case Thrown => crashed := true;
      }
    }

    /** Watching the master: what was read was applied, in order, and the watch ends where it has to and not before. */
    method Keepalive(windows: seq<Window>) returns (end: Watch, used: nat)
      requires forall k :: 0 <= k < |windows| && windows[k].Data? ==> R.WellFormedAtBackup(windows[k].p)
      requires !crashed
      modifies this`adjacent, this`crashed, this`users, this`store
      ensures used <= |windows| && State() == OnWindows(old(State()), windows[..used])
      ensures end == Watching ==> used == |windows| && forall k :: 0 <= k < used ==> !GivesUpAt(windows, k)
      ensures end == GaveUp ==> 0 < used && GivesUpAt(windows, used - 1)
                                && forall k :: 0 <= k < used - 1 ==> !GivesUpAt(windows, k)
      ensures end == Died <==> crashed
    {
      used := 0;
      var halfTimeout := false;
      while used < |windows|
        invariant used <= |windows| && !crashed
        invariant State() == OnWindows(old(State()), windows[..used])
        invariant forall k :: 0 <= k < used ==> !GivesUpAt(windows, k)
        invariant halfTimeout <==> used > 0 && windows[used - 1].Silent?
      {
        var w := windows[used];
        assert windows[..used + 1][..used] == windows[..used];
        used := used + 1;
        match w
        case Data(p) =>
          halfTimeout := false;
          HandlePacket(p);
          if crashed {
            return Died, used;
          }
        case ReadFailed =>
          return GaveUp, used;
        case Silent(probeSent) =>
          if halfTimeout || !probeSent {
            return GaveUp, used;
          }
          halfTimeout := true;
      }
      return Watching, used;
    }

    /** The login context, gathered user by user, for the case that this backup becomes master. */
    method BuildContext() returns (context: seq<bytes>)
      ensures exists order :: L.Enumerates(order, users) && context == L.Context(order, users)
    {
      context := [];
      ghost var order: seq<bytes> := [];
      var left := users.Keys;
      while left != {}
        invariant left <= users.Keys
        invariant forall u :: u in order <==> u in users && u !in left
        invariant forall i, j :: 0 <= i < j < |order| ==> order[i] != order[j]
        invariant context == L.Context(order, users)
        decreases left
      {
        var u :| u in left;
        ghost var longer := order + [u];
        assert longer[..|order|] == order;
        context := context + users[u];
        order, left := longer, left - {u};
      }
    }

    method SetRelaunch()
      modifies this`id, this`adjacent, this`relaunch
      ensures id == 0 && adjacent == J.NO_PEER && relaunch
    {
      id, adjacent, relaunch := 0, J.NO_PEER, true;
    }

    /**
     * The master is lost.  Without a neighbour this backup takes over; otherwise it votes, reading `inbox` from the
     * ring until its own vote comes back or somebody else is announced (or the inbox holds nothing more for now).
     */
    method Elect(inbox: seq<Packet>) returns (out: seq<Packet>, read: nat)
      requires !isMaster && !relaunch
      modifies this`id, this`adjacent, this`isMaster, this`relaunch, this`dialled
      ensures old(adjacent.ip) == [] ==> isMaster && !relaunch && out == [] && read == 0 && dialled == old(dialled)
      ensures old(adjacent.ip) != [] ==>
                Ballot(out, if isMaster then Master else if relaunch then Relaunching else Voting, read)
                == Ballots(old(id), OwnVote(old(id), Render(Peer(ip, port))), inbox)
      ensures old(adjacent.ip) != [] && (forall k :: 0 <= k < |inbox| ==> !Counts(inbox[k])) ==>
                !isMaster && !relaunch && out == [BuildPacket(VOTE, 0, ToU32(old(id)), Render(Peer(ip, port)))]
      ensures relaunch ==> !isMaster && id == 0 && adjacent == J.NO_PEER
                           && 0 < read <= |inbox| && inbox[read - 1].ptype == VOTE && inbox[read - 1].seqn == 1
                           && Names(Text(inbox[read - 1]), dialled)
      ensures !relaunch ==> id == old(id) && adjacent == old(adjacent)
      ensures !relaunch && old(adjacent.ip) != [] ==> dialled == Dialled(adjacent.ip, adjacent.port + 50)
    {
      out, read := [], 0;
      if adjacent.ip == [] {
        isMaster := true;
        return;
      }
      dialled := Dialled(adjacent.ip, adjacent.port + 50);
      var myId, myVote := id, OwnVote(id, Render(Peer(ip, port)));
      out := [myVote];
      var voting := true;
      while voting && read < |inbox|
        invariant read <= |inbox| && id == (if relaunch then 0 else myId)
        invariant voting <==> !isMaster && !relaunch
        invariant Ballot(out, if isMaster then Master else if relaunch then Relaunching else Voting, read)
                  == Ballots(myId, myVote, inbox[..read])
        invariant relaunch ==> !isMaster && adjacent == J.NO_PEER
                               && 0 < read && inbox[read - 1].ptype == VOTE && inbox[read - 1].seqn == 1
                               && dialled == LastNamed(Text(inbox[read - 1]))
        invariant !relaunch ==> adjacent == old(adjacent) && dialled == Dialled(adjacent.ip, adjacent.port + 50)
        decreases |inbox| - read, voting
      {
        var p := inbox[read];
        assert inbox[..read + 1][..read] == inbox[..read];
        read := read + 1;
        if p.ptype == VOTE {
          if p.seqn == 1 {
            out := out + [myVote];
            voting := false;
            dialled := LastNamed(Text(p));
            SetRelaunch();
          } else if p.seqn == 0 {
            if myId == ToI32(p.total) {
              isMaster := true;
              out := out + [p.(seqn := 1)];
              voting := false;
            } else if myId < ToI32(p.total) {
              out := out + [myVote];
            } else {
              out := out + [p];
            }
          }
        }
      }
      if voting {
        assert inbox[..read] == inbox;
      } else {
        BallotsStop(myId, myVote, inbox, read);
      }
      if relaunch {
        LastColonNames(Text(inbox[read - 1]));
      }
      OtherPacketsDoNotMatter(myId, myVote, inbox);
      if forall k :: 0 <= k < |inbox| ==> !Counts(inbox[k]) {
        NothingCounts(inbox);
      }
    }

    /** Accept and JOIN_REQ as one step of the master: the list grows by the newcomer, the replies go out. */
    method HandleJoin(request: Packet) returns (replies: seq<J.Letter>)
      requires |others| + 1 < TWO_31
      modifies this`others, this`crashed
      ensures match J.Joiner(request)
              case Parsed(peer) => others == old(others) + [peer] && replies == J.JoinReplies(others)
                                   && crashed == old(crashed)
              case Thrown => others == old(others) && replies == [] && crashed
    {
      replies := [];
      match ParseFirst(Text(request))
      case Thrown =>
        crashed := true;
      case Parsed(peer) =>
        others := others + [peer];
        var last := |others| - 1;
        if |others| > 1 {
          replies := replies + [J.Letter(last - 1, J.JoinReply(others[last]))];
          replies := replies + [J.Letter(last, J.JoinReply(others[0]))];
        }
        replies := replies + [J.Letter(last, J.IdReply(last, others[last]))];
    }

    /** Every backup is written to once, in join order, with the same signed packet. */
    method BroadcastOthers(p: Packet, pad: bytes, user: bytes) returns (letters: seq<J.Letter>)
      requires Signable(p, user) && |pad| == 4
      ensures |letters| == |others|
      ensures forall k :: 0 <= k < |others| ==> letters[k] == J.Letter(k, Sign(p, pad, user))
    {
      var sp := SignPacket(p, pad, user);
      letters := [];
      for k := 0 to |others|
        invariant |letters| == k
        invariant forall j :: 0 <= j < k ==> letters[j] == J.Letter(j, sp)
      {
        letters := letters + [J.Letter(k, sp)];
      }
    }
  }

  // ------------------------------------------------------------------ login context over a whole watch

  /** The login record in one turn of the loop, if there is one. */
  function LoginIn(w: Window): seq<L.Login>
    requires w.Data? ==> R.WellFormedAtBackup(w.p)
  {
    if w.Data? && w.p.ptype == SIGNED_PACKET && Extract(w.p).p.ptype == LOGIN_REQ
    then [L.Login(Extract(w.p).user, Extract(w.p).p.payload)] else []
  }

  function LoginsIn(windows: seq<Window>): seq<L.Login>
    requires forall k :: 0 <= k < |windows| && windows[k].Data? ==> R.WellFormedAtBackup(windows[k].p)
  {
    if windows == [] then []
    else
      assert windows[|windows| - 1].Data? ==> R.WellFormedAtBackup(windows[|windows| - 1].p);
      LoginsIn(windows[..|windows| - 1]) + LoginIn(windows[|windows| - 1])
  }

  lemma UsersAfterWindow(r: Replica, w: Window, log: seq<L.Login>)
    requires w.Data? ==> R.WellFormedAtBackup(w.p)
    requires r.users == L.AfterLogins(log)
    ensures (if w.Data? then OnPacket(r, w.p) else r).users == L.AfterLogins(log + LoginIn(w))
  {
    if LoginIn(w) == [] {
      assert log + LoginIn(w) == log;
    } else {
      assert (log + LoginIn(w))[..|log|] == log;
    }
  }

  /** The users map of a backup is the fold of the login records it has read, whatever else came in between. */
  lemma {:induction false} WatchKeepsLogins(r: Replica, windows: seq<Window>)
    requires forall k :: 0 <= k < |windows| && windows[k].Data? ==> R.WellFormedAtBackup(windows[k].p)
    requires r.users == map[]
    ensures OnWindows(r, windows).users == L.AfterLogins(LoginsIn(windows))
  {
    if windows != [] {
      var before, w := windows[..|windows| - 1], windows[|windows| - 1];
      WatchKeepsLogins(r, before);
      assert w.Data? ==> R.WellFormedAtBackup(w.p);
      UsersAfterWindow(OnWindows(r, before), w, LoginsIn(before));
    }
  }

  /**
   * From a fresh backup's watch to the handshakes of the next master: one entry per login record read, with the
   * addresses of those records.
   */
  method ContextAfterWatch(router: InternalRouter, windows: seq<Window>) returns (context: seq<bytes>, ghost used: nat)
    requires forall k :: 0 <= k < |windows| && windows[k].Data? ==> R.WellFormedAtBackup(windows[k].p)
    requires !router.crashed && router.users == map[]
    modifies router
    ensures used <= |windows| && |context| == |LoginsIn(windows[..used])|
    ensures multiset(context) == multiset(L.Addresses(LoginsIn(windows[..used])))
  {
    ghost var r := router.State();
    var end, n := router.Keepalive(windows);
    used := n;
    WatchKeepsLogins(r, windows[..used]);
    context := router.BuildContext();
    ghost var order :| L.Enumerates(order, router.users) && context == L.Context(order, router.users);
    L.ContextConserved(LoginsIn(windows[..used]), order);
  }

  /** And over several windows the store follows the records, as the replication protocol has it. */
  function RecordsIn(windows: seq<Window>): seq<S.Record>
    requires forall k :: 0 <= k < |windows| && windows[k].Data? ==> R.WellFormedAtBackup(windows[k].p)
  {
    if windows == [] then []
    else
      var w := windows[|windows| - 1];
      RecordsIn(windows[..|windows| - 1])
      + if w.Data? && w.p.ptype == SIGNED_PACKET then [R.RecordOf(w.p)] else []
  }

  lemma {:induction false} WatchAppliesRecords(r: Replica, windows: seq<Window>)
    requires forall k :: 0 <= k < |windows| && windows[k].Data? ==> R.WellFormedAtBackup(windows[k].p)
    ensures OnWindows(r, windows).store == S.ApplyAll(S.AtBackup, r.store, RecordsIn(windows))
  {
    if windows != [] {
      var before, w := windows[..|windows| - 1], windows[|windows| - 1];
      WatchAppliesRecords(r, before);
      if w.Data? && w.p.ptype == SIGNED_PACKET {
        assert RecordsIn(windows)[..|RecordsIn(before)|] == RecordsIn(before);
      } else {
        assert RecordsIn(windows) == RecordsIn(before);
      }
    }
  }

  /** The packets of a watch that are not records: the ones that may move the neighbour. */
  function RingPacketsIn(windows: seq<Window>): seq<Packet> {
    if windows == [] then []
    else
      var w := windows[|windows| - 1];
      RingPacketsIn(windows[..|windows| - 1]) + if w.Data? && w.p.ptype != SIGNED_PACKET then [w.p] else []
  }

  /** The watch moves the neighbour as the join protocol has it, however many records come in between. */
  lemma {:induction false} WatchFollowsJoins(r: Replica, windows: seq<Window>)
    requires forall k :: 0 <= k < |windows| && windows[k].Data? ==> R.WellFormedAtBackup(windows[k].p)
    ensures OnWindows(r, windows).ring == J.ReceiveAll(r.ring, RingPacketsIn(windows))
  {
    if windows != [] {
      var before, w := windows[..|windows| - 1], windows[|windows| - 1];
      WatchFollowsJoins(r, before);
      if w.Data? && w.p.ptype != SIGNED_PACKET {
        J.ReceiveAllAppend(r.ring, RingPacketsIn(before), w.p);
      } else {
        assert RingPacketsIn(windows) == RingPacketsIn(before);
      }
    }
  }

  // ------------------------------------------------------------------ a watch over a master that keeps to the protocol

  /** Every JOIN_RESP of the watch is the master's notice of a peer, `peers[k]` for window k. */
  ghost predicate OnlyNotices(windows: seq<Window>, peers: seq<Peer>) {
    && |peers| == |windows|
    && forall k :: 0 <= k < |windows| && windows[k].Data? && windows[k].p.ptype == JOIN_RESP ==>
                     J.ValidPeer(peers[k]) && windows[k].p == J.JoinReply(peers[k])
  }

  /** The peers noticed, in order. */
  function Noticed(windows: seq<Window>, peers: seq<Peer>): seq<Peer>
    requires |peers| == |windows|
  {
    if windows == [] then []
    else
      var m := |windows| - 1;
      Noticed(windows[..m], peers[..m])
      + if windows[m].Data? && windows[m].p.ptype == JOIN_RESP then [peers[m]] else []
  }

  function LastOr(peers: seq<Peer>, otherwise: Peer): Peer {
    if peers == [] then otherwise else peers[|peers| - 1]
  }

  lemma NoticeMovesNeighbour(r: Replica, w: Window, peer: Peer)
    requires w.Data? ==> R.WellFormedAtBackup(w.p)
    requires w.Data? && w.p.ptype == JOIN_RESP ==> J.ValidPeer(peer) && w.p == J.JoinReply(peer)
    requires r.ring.stage == J.Tracking
    ensures (if w.Data? then OnPacket(r, w.p) else r).ring
            == if w.Data? && w.p.ptype == JOIN_RESP then r.ring.(adjacent := peer) else r.ring
  {
    if w.Data? && w.p.ptype == JOIN_RESP {
      J.ReceiveNotice(r.ring, peer);
    }
  }

  lemma {:induction false} NoticesMoveNeighbour(r: Replica, windows: seq<Window>, peers: seq<Peer>)
    requires forall k :: 0 <= k < |windows| && windows[k].Data? ==> R.WellFormedAtBackup(windows[k].p)
    requires OnlyNotices(windows, peers) && r.ring.stage == J.Tracking
    ensures OnWindows(r, windows).ring == r.ring.(adjacent := LastOr(Noticed(windows, peers), r.ring.adjacent))
  {
    if windows != [] {
      var m := |windows| - 1;
      assert windows[m].Data? ==> R.WellFormedAtBackup(windows[m].p);
      NoticesMoveNeighbour(r, windows[..m], peers[..m]);
      NoticeMovesNeighbour(OnWindows(r, windows[..m]), windows[m], peers[m]);
    }
  }

  /**
   * A backup never dies of what such a master sends it, whatever other packets come in between: it keeps its id and
   * host, and its neighbour is the last one noticed, or the old one if there was no notice.
   */
  method WatchFollowsNotices(router: InternalRouter, windows: seq<Window>, ghost peers: seq<Peer>)
    returns (end: Watch, used: nat)
    requires forall k :: 0 <= k < |windows| && windows[k].Data? ==> R.WellFormedAtBackup(windows[k].p)
    requires !router.crashed && OnlyNotices(windows, peers)
    modifies router`adjacent, router`crashed, router`users, router`store
    ensures used <= |windows| && end != Died && !router.crashed
    ensures router.adjacent == LastOr(Noticed(windows[..used], peers[..used]), old(router.adjacent))
  {
    ghost var r := router.State();
    end, used := router.Keepalive(windows);
    NoticesMoveNeighbour(r, windows[..used], peers[..used]);
  }
}
