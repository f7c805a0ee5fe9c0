/** The master's handling of one client request (server/comms/manager/manager.cpp), and who may be handling it. */
module Managers {
  import opened Bytes
  import opened Packets
  import opened Signing
  import opened Wrappers
  import F = Files
  import I = InternalRouters
  import J = Joining
  import L = Listing
  import R = Records
  import S = Stores
  import Slots
  import Sync

  // ------------------------------------------------------------------ what the user's clients are told

  /** The reply of one text to the client itself. */
  function Say(ptype: u16, text: bytes): Packet {
    Packet(ptype, 0, 0, text + "\0")
  }

  const LOGGED_OUT: bytes := "successfully logged out"
  const SYNCED: bytes := "successfully synced directory"
  const UPLOADED: bytes := "successfully uploaded file"
  const REFUSED_UPLOAD: bytes := "error uploading file"
  const REFUSED_DOWNLOAD: bytes := "Error downloading file"
  const REFUSED_LIST: bytes := "error listing files"
  const REFUSED_DELETE: bytes := "error deleting file"
  const UNKNOWN: bytes := "Unrecognized packet type"

  /** What the upload or delete controller returns. */
  function Outcome(store: S.Store, user: bytes, p: Packet): int {
    if p.ptype == UPLOAD_REQ && user !in store.dirs then -1
    else if p.ptype == DELETE_REQ && (user, Text(p)) !in store.files then -1
    else 0
  }

  /**
   * What the handlers take for granted: `entries` is what readdir reports of the user's directory, if it is there, and
   * the files that are sent have names and sizes that survive it.
   */
  ghost predicate Servable(store: S.Store, user: bytes, p: Packet, entries: seq<L.Entry>) {
    && R.WellFormed(p)
    && (p.ptype == SYNC_DIR_REQ || p.ptype == LIST_REQ ==>
          user in store.dirs ==> Sync.Enumerates(entries, S.FilesOf(store, user)) && |L.Names(entries)| < TWO_31)
    && (p.ptype == SYNC_DIR_REQ || p.ptype == DOWNLOAD_REQ ==> Sync.AllFit(S.FilesOf(store, user)))
  }

  /** What goes back on the client's own connection. */
  ghost function Replies(store: S.Store, user: bytes, p: Packet, entries: seq<L.Entry>): seq<Packet>
    requires Servable(store, user, p, entries)
  {
    var refused := Outcome(store, user, p) < 0;
    if p.ptype == LOGOUT_REQ then [Say(LOGOUT_RESP, LOGGED_OUT)]
    else if p.ptype == SYNC_DIR_REQ then
      if user in store.dirs then Sync.Answer(L.Names(entries), S.FilesOf(store, user))
      else [Say(SYNC_DIR_ACCEPT_RESP, SYNCED)]
    else if p.ptype == UPLOAD_REQ then
      [if refused then Say(UPLOAD_REFUSE_RESP, REFUSED_UPLOAD)
       else Say(UPLOAD_ACCEPT_RESP, UPLOADED)]
    else if p.ptype == DOWNLOAD_REQ then
      var name := Text(p);
      if (user, name) !in store.files then [Packet(DOWNLOAD_REFUSE_RESP, 0, 0, REFUSED_DOWNLOAD)]
      else
        assert Sync.Fit(name, S.FilesOf(store, user)[name]);
        [Sync.FilePacket(DOWNLOAD_ACCEPT_RESP, 0, 0, name, store.files[(user, name)])]
    else if p.ptype == LIST_REQ then
      [if user in store.dirs then Say(LIST_ACCEPT_RESP, L.ListingText(entries))
       else Say(LIST_REFUSE_RESP, REFUSED_LIST)]
    else if p.ptype == DELETE_REQ then
      [if refused then Say(DELETE_REFUSE_RESP, REFUSED_DELETE) else Say(DELETE_ACCEPT_RESP, Text(p))]
    else if p.ptype == STOP_SERVER_REQ then []
    else [Say(UNKNOWN_RESP, UNKNOWN)]
  }

  /** What a request sends to the user's connections, and to which of them: the excluded descriptor, -1 for none. */
  datatype Shared = Nothing | ToAll(p: Packet, except: int)

  function Broadcast(store: S.Store, user: bytes, p: Packet, fd: int): Shared
    requires R.WellFormed(p) && Signable(p, user)
  {
    if p.ptype == UPLOAD_REQ then
      var f := F.Deserialize(p.payload);
      F.ReadIsStorable(p.payload);
      ToAll(Packet(UPLOAD_BROADCAST, 0, 0, F.Serialize(f)), -1)
    else if p.ptype == DELETE_REQ then
      ToAll(Say(DELETE_BROADCAST, if Outcome(store, user, p) < 0 then REFUSED_DELETE else Text(p)), fd)
    else Nothing
  }

  /** What a request makes of the master's directories and files. */
  ghost predicate Carries(p: Packet, user: bytes, store: S.Store, store': S.Store)
    requires R.WellFormed(p)
  {
    && (p.ptype == SYNC_DIR_REQ ==> store'.dirs == store.dirs + {user} && store'.files == store.files)
    && (p.ptype == UPLOAD_REQ ==>
          && store'.dirs == store.dirs
          && store'.files == if user !in store.dirs then store.files
                             else var f := F.Deserialize(p.payload); store.files[(user, f.name) := f.data])
    && (p.ptype == DELETE_REQ ==>
          store'.dirs == store.dirs && store'.files == store.files - {(user, Text(p))})
    && (p.ptype != SYNC_DIR_REQ && p.ptype != UPLOAD_REQ && p.ptype != DELETE_REQ ==> store' == store)
  }

  /** The descriptors a shared packet is written to, over the slots as broadcast_to_user goes through them. */
  function Audience(shared: Shared, fds: seq<int>): seq<int> {
    match shared
    case Nothing => []
    case ToAll(_, except) => Slots.Except(fds[..Slots.CountAtMost(fds)], except)
  }

  /** The download controller, and the form in which what it has read is sent. */
  method Download(dir: F.Directory, name: bytes) returns (err: int, payload: bytes)
    requires Sync.AllFit(dir.files)
    ensures err == if name in dir.files then 0 else -1
    ensures name in dir.files ==>
              Packet(DOWNLOAD_ACCEPT_RESP, 0, 0, payload)
              == Sync.FilePacket(DOWNLOAD_ACCEPT_RESP, 0, 0, name, dir.files[name])
  {
    err, payload := -1, [];
    if name in dir.files {
      assert Sync.Fit(name, dir.files[name]);
      payload := Sync.Load(dir, name);
      err := 0;
    }
  }

  /** A descriptor in one of the first `count` slots. */
  ghost predicate InReach(fds: seq<int>, fd: int) {
    exists i :: 0 <= i < |fds| && i < |Slots.Active(fds)| && fds[i] == fd
  }

  lemma AudienceIs(shared: Shared, fds: seq<int>)
    ensures forall fd :: fd in Audience(shared, fds) <==> shared.ToAll? && fd != shared.except && InReach(fds, fd)
  {
    if shared.ToAll? {
      var n := Slots.CountAtMost(fds);
      Slots.ExceptMembers(fds[..n], shared.except);
      assert forall i :: 0 <= i < n ==> fds[..n][i] == fds[i];
      assert forall fd :: fd in fds[..n] <==> InReach(fds, fd);
    }
  }

  /** What the client is told about each request. */
  lemma RepliesSayWhatHappened(store: S.Store, user: bytes, p: Packet, entries: seq<L.Entry>)
    requires Servable(store, user, p, entries)
    ensures var r := Replies(store, user, p, entries);
            && (p.ptype == LOGOUT_REQ ==> |r| == 1 && r[0].ptype == LOGOUT_RESP)
            && (p.ptype == SYNC_DIR_REQ && user !in store.dirs ==> |r| == 1 && r[0].ptype == SYNC_DIR_ACCEPT_RESP)
            && (p.ptype == UPLOAD_REQ ==>
                  |r| == 1 && r[0].ptype == if user in store.dirs then UPLOAD_ACCEPT_RESP else UPLOAD_REFUSE_RESP)
            && (p.ptype == DELETE_REQ && (user, Text(p)) in store.files ==>
                  |r| == 1 && r[0].ptype == DELETE_ACCEPT_RESP && Text(r[0]) == Text(p))
            && (p.ptype == DELETE_REQ && (user, Text(p)) !in store.files ==>
                  |r| == 1 && r[0].ptype == DELETE_REFUSE_RESP)
            && (p.ptype == LIST_REQ && user in store.dirs ==>
                  |r| == 1 && r[0].ptype == LIST_ACCEPT_RESP && r[0].payload == L.ListingText(entries) + "\0")
            && (p.ptype == LIST_REQ && user !in store.dirs ==> |r| == 1 && r[0].ptype == LIST_REFUSE_RESP)
            && (p.ptype !in [LOGOUT_REQ, SYNC_DIR_REQ, UPLOAD_REQ, DOWNLOAD_REQ, LIST_REQ, DELETE_REQ, STOP_SERVER_REQ]
                ==> |r| == 1 && r[0].ptype == UNKNOWN_RESP)
  {
    CStrHasNoNul(p.payload);
    TextOfSaid(DELETE_ACCEPT_RESP, Text(p));
  }

  /** A download brings the file the server has under that name, or is refused because there is none. */
  lemma DownloadBringsFile(store: S.Store, user: bytes, p: Packet, entries: seq<L.Entry>)
    requires Servable(store, user, p, entries) && p.ptype == DOWNLOAD_REQ
    ensures var r := Replies(store, user, p, entries);
            |r| == 1 && (if (user, Text(p)) in store.files then
                           && r[0].ptype == DOWNLOAD_ACCEPT_RESP && F.WellFormed(r[0].payload)
                           && F.Deserialize(r[0].payload) == F.FileValue(Text(p), store.files[(user, Text(p))])
                         else r[0].ptype == DOWNLOAD_REFUSE_RESP)
  {
    var name := Text(p);
    if (user, name) in store.files {
      assert Sync.Fit(name, S.FilesOf(store, user)[name]);
      Sync.FilePacketCarries(DOWNLOAD_ACCEPT_RESP, 0, 0, name, store.files[(user, name)]);
    }
  }

  class Manager {
    const router: I.InternalRouter
    var store: S.Store
    var users: map<bytes, Slots.User>

    constructor (router: I.InternalRouter, store: S.Store)
      ensures this.router == router && this.store == store && users == map[]
    {
      this.router, this.store, users := router, store, map[];
    }

    /** The connections of the user a packet is written to. */
    method BroadcastToUser(user: bytes, except: int) returns (err: int, written: seq<int>)
      ensures user !in users ==> err == -1 && written == []
      ensures user in users ==>
                var fds := users[user].connections[..];
                err == 0 && written == Slots.Except(fds[..Slots.CountAtMost(fds)], except)
    {
      if user !in users {
        return -1, [];
      }
      written := users[user].Broadcast(except);
      err := 0;
    }

    method HandleSyncDir(user: bytes, entries: seq<L.Entry>) returns (replies: seq<Packet>)
      requires user in store.dirs ==> Sync.Enumerates(entries, S.FilesOf(store, user)) && |L.Names(entries)| < TWO_31
      requires Sync.AllFit(S.FilesOf(store, user))
      modifies this`store
      ensures store == S.ApplyRecord(S.AtMaster, old(store), S.Client(user, S.SyncDir))
      ensures store.dirs == old(store).dirs + {user} && store.files == old(store).files
      ensures replies == if user in old(store).dirs then Sync.Answer(L.Names(entries), S.FilesOf(old(store), user))
                         else [Say(SYNC_DIR_ACCEPT_RESP, SYNCED)]
    {
      if user in store.dirs {
        var dir := new F.Directory(S.FilesOf(store, user));
        replies := Sync.SyncFiles(dir, Some(entries));
        assert store.dirs + {user} == store.dirs;
      } else {
        store := store.(dirs := store.dirs + {user});
        replies := [Say(SYNC_DIR_ACCEPT_RESP, SYNCED)];
      }
    }

    /** The file is announced to all the user's connections even when it could not be written. */
    method HandleUpload(p: Packet, user: bytes) returns (replies: seq<Packet>, shared: Shared)
      requires p.ptype == UPLOAD_REQ && R.WellFormed(p) && Signable(p, user)
      modifies this`store
      ensures store == S.ApplyRecord(S.AtMaster, old(store), S.Client(user, R.OpOf(p)))
      ensures replies == [if user in store.dirs then Say(UPLOAD_ACCEPT_RESP, UPLOADED)
                          else Say(UPLOAD_REFUSE_RESP, REFUSED_UPLOAD)]
      ensures shared == Broadcast(old(store), user, p, -1)
    {
      var file := new F.File([]);
      file.FromData(p.payload);
      assert file.Value() == F.Deserialize(p.payload);
      if user in store.dirs {
        store := store.(files := store.files[(user, file.filename) := file.data[..]]);
        replies := [Say(UPLOAD_ACCEPT_RESP, UPLOADED)];
      } else {
        replies := [Say(UPLOAD_REFUSE_RESP, REFUSED_UPLOAD)];
      }
      F.ReadIsStorable(p.payload);
      var payload := file.ToData();
      shared := ToAll(Packet(UPLOAD_BROADCAST, 0, 0, payload), -1);
    }

    method HandleDownload(name: bytes, user: bytes) returns (replies: seq<Packet>)
      requires Sync.AllFit(S.FilesOf(store, user))
      ensures var files := S.FilesOf(store, user);
              replies == [if name in files then Sync.FilePacket(DOWNLOAD_ACCEPT_RESP, 0, 0, name, files[name])
                          else Packet(DOWNLOAD_REFUSE_RESP, 0, 0, REFUSED_DOWNLOAD)]
    {
      var dir := new F.Directory(S.FilesOf(store, user));
      var err, payload := Download(dir, name);
      replies := [if err < 0 then Packet(DOWNLOAD_REFUSE_RESP, 0, 0, REFUSED_DOWNLOAD)
                  else Packet(DOWNLOAD_ACCEPT_RESP, 0, 0, payload)];
    }

    method HandleDelete(p: Packet, user: bytes, fd: int) returns (replies: seq<Packet>, shared: Shared)
      requires p.ptype == DELETE_REQ && Signable(p, user)
      modifies this`store
      ensures store == S.ApplyRecord(S.AtMaster, old(store), S.Client(user, S.Delete(Text(p))))
      ensures replies == [if (user, Text(p)) in old(store).files then Say(DELETE_ACCEPT_RESP, Text(p))
                          else Say(DELETE_REFUSE_RESP, REFUSED_DELETE)]
      ensures shared == Broadcast(old(store), user, p, fd)
    {
      var text := Text(p);
      if (user, text) in store.files {
        store := store.(files := store.files - {(user, text)});
        replies := [Say(DELETE_ACCEPT_RESP, text)];
      } else {
        assert store.files - {(user, text)} == store.files;
        text := REFUSED_DELETE;
        replies := [Say(DELETE_REFUSE_RESP, text)];
      }
      shared := ToAll(Say(DELETE_BROADCAST, text), fd);
    }

    /** The switch on the type of a request. */
    method Serve(p: Packet, user: bytes, fd: int, entries: seq<L.Entry>)
      returns (replies: seq<Packet>, shared: Shared)
      requires Servable(store, user, p, entries) && Signable(p, user)
      modifies this`store
      ensures store == S.ApplyRecord(S.AtMaster, old(store), S.Client(user, R.OpOf(p)))
      ensures Carries(p, user, old(store), store)
      ensures replies == Replies(old(store), user, p, entries)
      ensures shared == Broadcast(old(store), user, p, fd)
    {
      replies, shared := [Say(UNKNOWN_RESP, UNKNOWN)], Nothing;
      if p.ptype == LOGOUT_REQ {
        replies := [Say(LOGOUT_RESP, LOGGED_OUT)];
      } else if p.ptype == SYNC_DIR_REQ {
        replies := HandleSyncDir(user, entries);
      } else if p.ptype == STOP_SERVER_REQ {
        replies := [];
      } else if p.ptype == UPLOAD_REQ {
        replies, shared := HandleUpload(p, user);
      } else if p.ptype == DOWNLOAD_REQ {
        replies := HandleDownload(Text(p), user);
      } else if p.ptype == LIST_REQ {
        var total, out := L.ListDirectory(if user in store.dirs then Some(entries) else None);
        replies := [if total < 0 then Say(LIST_REFUSE_RESP, REFUSED_LIST) else Say(LIST_ACCEPT_RESP, out)];
      } else if p.ptype == DELETE_REQ {
        replies, shared := HandleDelete(p, user, fd);
      }
    }

    /**
     * handle_connection on one request of the connection in the given slot: first every backup is written to, then
     * the request is carried out, whether or not it can be, answered, and told to the user's other connections.
     */
    method HandleConnection(p: Packet, pad: bytes, user: bytes, slot: nat, entries: seq<L.Entry>)
      returns (letters: seq<J.Letter>, replies: seq<Packet>, shared: Shared, sharedWith: seq<int>)
      requires user in users && slot < users[user].connections.Length
      requires Servable(store, user, p, entries) && Signable(p, user) && |pad| == 4
      modifies this`store, users[user].connections
      ensures |letters| == |router.others|
      ensures forall k :: 0 <= k < |letters| ==> letters[k] == J.Letter(k, Sign(p, pad, user))
      ensures store == S.ApplyRecord(S.AtMaster, old(store), S.Client(user, R.OpOf(p)))
      ensures Carries(p, user, old(store), store)
      ensures replies == Replies(old(store), user, p, entries)
      ensures shared == Broadcast(old(store), user, p, old(users[user].connections[slot]))
      ensures sharedWith == Audience(shared, old(users[user].connections[..]))
      ensures forall fd :: fd in sharedWith <==>
                             && InReach(old(users[user].connections[..]), fd)
                             && if p.ptype == UPLOAD_REQ then fd != -1
                                else p.ptype == DELETE_REQ && fd != old(users[user].connections[slot])
      ensures users[user].connections[..]
              == if p.ptype == LOGOUT_REQ then old(users[user].connections[..])[slot := 0]
                 else old(users[user].connections[..])
    {
      letters := router.BroadcastOthers(p, pad, user);
      replies, shared := Serve(p, user, users[user].connections[slot], entries);
      AudienceIs(shared, users[user].connections[..]);
      sharedWith := [];
      if shared.ToAll? {
        var err, written := BroadcastToUser(user, shared.except);
        sharedWith := written;
      }
      if p.ptype == LOGOUT_REQ {
        users[user].connections[slot] := 0;
      }
    }
  }

  // ------------------------------------------------------------------ what clients can rely on

  /** After one request, at the master. */
  function Afterwards(store: S.Store, user: bytes, p: Packet): S.Store
    requires R.WellFormed(p)
  {
    S.ApplyRecord(S.AtMaster, store, S.Client(user, R.OpOf(p)))
  }

  /** A client's directory once it has read what was shared. */
  function AfterShared(dir: Sync.Content, shared: Shared): Sync.Content
    requires shared.ToAll? && shared.p.ptype == UPLOAD_BROADCAST ==> F.WellFormed(shared.p.payload)
  {
    if shared.Nothing? then dir else Sync.AfterBroadcast(dir, shared.p)
  }

  lemma TextOfSaid(ptype: u16, text: bytes)
    requires '\0' !in text
    ensures Text(Say(ptype, text)) == text
  {
    CStrOfTerminated(text, []);
    assert text + "\0" + [] == text + "\0";
  }

  lemma UploadsStayInStep(store: S.Store, user: bytes, p: Packet, fd: int)
    requires R.WellFormed(p) && Signable(p, user) && S.Housed(store) && p.ptype == UPLOAD_REQ
    ensures var shared := Broadcast(store, user, p, fd);
            && shared.ToAll? && shared.p.ptype == UPLOAD_BROADCAST && F.WellFormed(shared.p.payload)
            && (AfterShared(S.FilesOf(store, user), shared) == S.FilesOf(Afterwards(store, user, p), user)
                <==> user in store.dirs)
  {
    F.ReadIsStorable(p.payload);
    var f := F.Deserialize(p.payload);
    S.FilesOfUpload(S.AtMaster, store, user, f.name, f.data);
  }

  lemma DeletesStayInStep(store: S.Store, user: bytes, p: Packet, fd: int)
    requires Signable(p, user) && p.ptype == DELETE_REQ
    ensures var shared := Broadcast(store, user, p, fd);
            && shared.ToAll? && shared.p.ptype == DELETE_BROADCAST
            && (AfterShared(S.FilesOf(store, user), shared) == S.FilesOf(Afterwards(store, user, p), user)
                <==> (user, Text(p)) in store.files || (user, REFUSED_DELETE) !in store.files)
  {
    var before := S.FilesOf(store, user);
    S.FilesOfDelete(S.AtMaster, store, user, Text(p));
    if (user, Text(p)) in store.files {
      CStrHasNoNul(p.payload);
      TextOfSaid(DELETE_BROADCAST, Text(p));
    } else {
      RefusalIsText();
      RemovingIsNothing(before, Text(p));
      RemovingIsNothing(before, REFUSED_DELETE);
    }
  }

  lemma RefusalIsText()
    ensures Text(Say(DELETE_BROADCAST, REFUSED_DELETE)) == REFUSED_DELETE
  {
    TextOfSaid(DELETE_BROADCAST, REFUSED_DELETE);
  }

  lemma RemovingIsNothing(dir: Sync.Content, name: bytes)
    ensures dir - {name} == dir <==> name !in dir
  {
    assert name !in dir - {name};
  }

  /**
   * A client whose directory is the server's stays in step with it through any request of the same user that is
   * shared with it, except in two cases: an upload the server refused, and a refused delete, which is broadcast as the
   * delete of a file of the name of the error text.
   */
  lemma MirrorsStayInStep(store: S.Store, user: bytes, p: Packet, fd: int)
    requires R.WellFormed(p) && Signable(p, user) && S.Housed(store)
    ensures var shared := Broadcast(store, user, p, fd);
            && (shared.ToAll? && shared.p.ptype == UPLOAD_BROADCAST ==> F.WellFormed(shared.p.payload))
            && (AfterShared(S.FilesOf(store, user), shared) == S.FilesOf(Afterwards(store, user, p), user)
                <==> && (p.ptype == UPLOAD_REQ ==> user in store.dirs)
                     && (p.ptype == DELETE_REQ && (user, Text(p)) !in store.files ==>
                           (user, REFUSED_DELETE) !in store.files))
  {
    if p.ptype == UPLOAD_REQ {
      UploadsStayInStep(store, user, p, fd);
    } else if p.ptype == DELETE_REQ {
      DeletesStayInStep(store, user, p, fd);
    }
  }

  // ------------------------------------------------------------------ one handler per connection

  /** The dispatching thread at one connection: it tests the flag, and later raises it and starts a handler. */
  datatype Dispatcher = Testing | Claiming

  /** `handlers` counts the handlers of the connection that have started and not yet lowered the flag. */
  datatype Dispatch = Dispatch(dispatcher: Dispatcher, waiting: bool, handlers: nat)

  datatype Step = Dispatches | HandlerEnds

  function Take(d: Dispatch, e: Step): Dispatch {
    match e
    case Dispatches =>
      if d.dispatcher == Claiming then Dispatch(Testing, true, d.handlers + 1)
      else if d.waiting then d else d.(dispatcher := Claiming)
    case HandlerEnds =>
      if d.handlers > 0 then d.(waiting := false, handlers := d.handlers - 1) else d
  }

  function AfterSteps(steps: seq<Step>): Dispatch {
    if steps == [] then Dispatch(Testing, false, 0)
    else Take(AfterSteps(steps[..|steps| - 1]), steps[|steps| - 1])
  }

  /** In any interleaving a connection has a handler exactly while its flag is up, and never two. */
  lemma {:induction false} OneHandlerPerConnection(steps: seq<Step>)
    ensures var d := AfterSteps(steps);
            && d.handlers == (if d.waiting then 1 else 0)
            && (d.dispatcher == Claiming ==> !d.waiting)
  {
    if steps != [] {
      OneHandlerPerConnection(steps[..|steps| - 1]);
    }
  }

  lemma OneStepMore(steps: seq<Step>, e: Step)
    ensures AfterSteps(steps + [e]) == Take(AfterSteps(steps), e)
  {
    assert (steps + [e])[..|steps|] == steps;
  }

  /** An idle connection can always be given a handler by the dispatching thread alone, in at most two of its steps. */
  lemma IdleGetsHandler(steps: seq<Step>) returns (more: seq<Step>)
    requires AfterSteps(steps).handlers == 0
    ensures |more| <= 2 && forall k :: 0 <= k < |more| ==> more[k] == Dispatches
    ensures AfterSteps(steps + more).handlers == 1
  {
    OneHandlerPerConnection(steps);
    OneStepMore(steps, Dispatches);
    more := [Dispatches];
    if AfterSteps(steps).dispatcher == Testing {
      OneStepMore(steps + [Dispatches], Dispatches);
      more := [Dispatches, Dispatches];
      assert steps + more == steps + [Dispatches] + [Dispatches];
    }
  }

  /** And a handler that ends leaves the connection to be dispatched again. */
  lemma HandlerMakesWay(steps: seq<Step>)
    requires AfterSteps(steps).handlers == 1
    ensures AfterSteps(steps + [HandlerEnds]).handlers == 0 && !AfterSteps(steps + [HandlerEnds]).waiting
  {
    OneStepMore(steps, HandlerEnds);
  }
}
