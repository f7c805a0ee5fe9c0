/** The first synchronisation, with the master's real handler at one end and the client's at the other. */
module Convergence {
  import opened Bytes
  import opened Listing
  import opened Packets
  import opened Signing
  import opened Sync
  import F = Files
  import M = Managers
  import R = Records
  import S = Stores

  /** The records the master's handler finds in a user's packets. */
  function Requests(user: bytes, ps: seq<Packet>): seq<S.Record>
    requires forall k :: 0 <= k < |ps| ==> R.WellFormed(ps[k])
  {
    if ps == [] then []
    else
      assert R.WellFormed(ps[|ps| - 1]);
      Requests(user, ps[..|ps| - 1]) + [S.Client(user, R.OpOf(ps[|ps| - 1]))]
  }

  lemma StoredUpload(s: S.Store, user: bytes, name: bytes, data: bytes)
    requires user in s.dirs
    ensures var after := S.ApplyRecord(S.AtMaster, s, S.Client(user, S.Upload(name, data)));
            && after.dirs == s.dirs && S.FilesOf(after, user) == S.FilesOf(s, user)[name := data]
            && forall v, f :: v != user ==> S.Lookup(after, v, f) == S.Lookup(s, v, f)
  {
  }

  lemma UploadsAreWellFormed(names: seq<bytes>, src: Content)
    requires forall x :: x in names ==> x in src && Fit(x, src[x])
    ensures forall k :: 0 <= k < |names| ==> R.WellFormed(Uploads(names, src)[k])
  {
    UploadsAreUploads(names, src);
  }

  lemma LastUpload(store: S.Store, user: bytes, names: seq<bytes>, src: Content)
    requires names != [] && forall x :: x in names ==> x in src && Fit(x, src[x])
    requires forall k :: 0 <= k < |names| ==> R.WellFormed(Uploads(names, src)[k])
    ensures var before, x := names[..|names| - 1], names[|names| - 1];
            && (forall k :: 0 <= k < |before| ==> R.WellFormed(Uploads(before, src)[k]))
            && S.ApplyAll(S.AtMaster, store, Requests(user, Uploads(names, src)))
               == S.ApplyRecord(S.AtMaster, S.ApplyAll(S.AtMaster, store, Requests(user, Uploads(before, src))),
                                S.Client(user, S.Upload(x, src[x])))
  {
    var before, x := names[..|names| - 1], names[|names| - 1];
    var ps := Uploads(names, src);
    UploadsAreWellFormed(before, src);
    assert ps[..|ps| - 1] == Uploads(before, src);
    FilePacketUploads(x, src[x]);
    var rs := Requests(user, ps);
    assert rs[..|rs| - 1] == Requests(user, Uploads(before, src));
  }

  /** The uploads of a list of files, handled one after the other, leave those files in the user's directory. */
  lemma {:induction false} UploadsAreStored(store: S.Store, user: bytes, names: seq<bytes>, src: Content)
    requires user in store.dirs && forall x :: x in names ==> x in src && Fit(x, src[x])
    ensures forall k :: 0 <= k < |names| ==> R.WellFormed(Uploads(names, src)[k])
    ensures var after := S.ApplyAll(S.AtMaster, store, Requests(user, Uploads(names, src)));
            && after.dirs == store.dirs
            && S.FilesOf(after, user) == Overlay(S.FilesOf(store, user), names, src)
            && forall v, f :: v != user ==> S.Lookup(after, v, f) == S.Lookup(store, v, f)
  {
    UploadsAreWellFormed(names, src);
    if names != [] {
      var before, x := names[..|names| - 1], names[|names| - 1];
      UploadsAreStored(store, user, before, src);
      LastUpload(store, user, names, src);
      StoredUpload(S.ApplyAll(S.AtMaster, store, Requests(user, Uploads(before, src))), user, x, src[x]);
    }
  }

  /** Handled by the master, these packets leave that directory to the user, and everybody else's as it was. */
  ghost predicate Stored(store: S.Store, user: bytes, ps: seq<Packet>, dir: Content)
    requires forall k :: 0 <= k < |ps| ==> R.WellFormed(ps[k])
  {
    LeavesBehind(store, S.ApplyAll(S.AtMaster, store, Requests(user, ps)), user, dir)
  }

  ghost predicate LeavesBehind(store: S.Store, after: S.Store, user: bytes, dir: Content) {
    S.FilesOf(after, user) == dir && forall v, f :: v != user ==> S.Lookup(after, v, f) == S.Lookup(store, v, f)
  }

  /** The names the client uploads once it has read the answer about n files. */
  ghost function Uploaded(whole: Content, n: nat, readdir: ReadDir): seq<bytes> {
    if 1 <= n <= 65535 then Names(readdir(whole)) else []
  }

  lemma UploadedAreStored(store: S.Store, user: bytes, client: Content, n: nat, readdir: ReadDir)
    requires user in store.dirs && AllFit(S.FilesOf(store, user)) && AllFit(client) && Lists(readdir)
    ensures var server := S.FilesOf(store, user);
            var whole := client + server;
            var names := Uploaded(whole, n, readdir);
            && (forall x :: x in names ==> x in whole && Fit(x, whole[x]))
            && (forall k :: 0 <= k < |Uploads(names, whole)| ==> R.WellFormed(Uploads(names, whole)[k]))
            && Stored(store, user, Uploads(names, whole), if 1 <= n <= 65535 then whole else server)
  {
    var server := S.FilesOf(store, user);
    var whole := client + server;
    var names := Uploaded(whole, n, readdir);
    assert Enumerates(readdir(whole), whole);
    UploadsAreStored(store, user, names, whole);
    if 1 <= n <= 65535 {
      OverlayWhole(server, names, whole);
      Merging(server, client);
    }
  }

  /**
   * The client ends with the server's files plus its own others; the server ends with the same files if and only if
   * its files can be counted in 16 bits or the client had nothing of its own.
   */
  lemma SyncConverges(store: S.Store, user: bytes, client: Content, entries: seq<Entry>, readdir: ReadDir)
    requires user in store.dirs && AllFit(S.FilesOf(store, user)) && AllFit(client) && Lists(readdir)
    requires Enumerates(entries, S.FilesOf(store, user)) && |S.FilesOf(store, user)| < TWO_31
    ensures var server := S.FilesOf(store, user);
            && |Names(entries)| == |server|
            && (forall k :: 0 <= k < |Answer(Names(entries), server)| ==> GoodAnswer(Answer(Names(entries), server)[k]))
            && var r := Run(client, Answer(Names(entries), server), readdir);
            && r.dir == client + server
            && (forall k :: 0 <= k < |r.sent| ==> R.WellFormed(r.sent[k]))
            && var after := S.ApplyAll(S.AtMaster, store, Requests(user, r.sent));
            && (S.FilesOf(after, user) == r.dir
                <==> 1 <= |server| <= 65535 || client.Keys <= server.Keys)
            && (1 <= |server| <= 65535 || S.FilesOf(after, user) == server)
  {
    var server := S.FilesOf(store, user);
    NamesCount(entries, server);
    AfterWholeAnswer(server, client, Names(entries), readdir);
    UploadedAreStored(store, user, client, |server|, readdir);
    Merging(server, client);
  }

  lemma NamesCount(entries: seq<Entry>, dir: Content)
    requires Enumerates(entries, dir)
    ensures |Names(entries)| == |dir|
  {
    assert dir.Keys == set x | x in Names(entries);
    DistinctCount(Names(entries), dir.Keys);
  }

  // ------------------------------------------------------------------ the real objects

  /** Files that can be wrapped with the user's name on their way to the backups. */
  ghost predicate Portable(dir: Content, user: bytes) {
    forall x :: x in dir ==> 2 * HEADER_SIZE + F.FILE_HEADER + |dir[x]| + |user| + 1 < TWO_31
  }

  /** The client reads the server's whole answer. */
  method ReadAnswer(client: Client, ps: seq<Packet>, readdir: ReadDir) returns (sent: seq<Packet>)
    requires Lists(readdir) && AllFit(client.dir.files) && forall k :: 0 <= k < |ps| ==> GoodAnswer(ps[k])
    modifies client.dir
    ensures Synced(client.dir.files, sent) == Run(old(client.dir.files), ps, readdir)
  {
    sent := [];
    for k := 0 to |ps|
      invariant AllFit(client.dir.files)
      invariant Synced(client.dir.files, sent) == Run(old(client.dir.files), ps[..k], readdir)
    {
      assert ps[..k + 1][..k] == ps[..k] && GoodAnswer(ps[k]);
      var after := AfterAnswer(client.dir.files, ps[k]);
      assert Enumerates(readdir(after), after);
      assert AllFit(after);
      var more := client.OnSyncPacket(ps[k], readdir(after));
      sent := sent + more;
    }
    assert ps[..|ps|] == ps;
  }

  lemma EchoIsNothingNew(store: S.Store, user: bytes, p: Packet, name: bytes, dir: Content, fd: int)
    requires name in dir && IsUploadOf(p, name, dir[name]) && Signable(p, user)
    ensures var shared := M.Broadcast(store, user, p, fd);
            && shared.ToAll? && shared.p.ptype == UPLOAD_BROADCAST && F.WellFormed(shared.p.payload)
            && AfterBroadcast(dir, shared.p) == dir
  {
    F.ReadIsStorable(p.payload);
  }

  /** One upload at the master, and its echo at the client if the broadcast reaches it. */
  method OneUpload(manager: M.Manager, client: Client, p: Packet, pad: bytes, user: bytes, slot: nat, ghost name: bytes)
    requires user in manager.users && slot < manager.users[user].connections.Length && |pad| == 4
    requires name in client.dir.files && IsUploadOf(p, name, client.dir.files[name]) && Signable(p, user)
    modifies manager`store, manager.users[user].connections, client.dir
    ensures manager.store == S.ApplyRecord(S.AtMaster, old(manager.store), S.Client(user, R.OpOf(p)))
    ensures client.dir.files == old(client.dir.files)
  {
    var fd := manager.users[user].connections[slot];
    EchoIsNothingNew(manager.store, user, p, name, client.dir.files, fd);
    var letters, replies, shared, sharedWith := manager.HandleConnection(p, pad, user, slot, []);
    if fd in sharedWith {
      client.OnBroadcast(shared.p);
    }
  }

  /** The packets upload these files of the directory, and can be forwarded. */
  ghost predicate AllUploads(ps: seq<Packet>, names: seq<bytes>, dir: Content, user: bytes) {
    && |names| == |ps|
    && (forall k :: 0 <= k < |ps| ==> R.WellFormed(ps[k]))
    && (forall k :: 0 <= k < |ps| ==>
                      Signable(ps[k], user) && names[k] in dir && IsUploadOf(ps[k], names[k], dir[names[k]]))
  }

  /** The master handles the uploads one after the other. */
  method HandleUploads(manager: M.Manager, client: Client, ps: seq<Packet>, pad: bytes, user: bytes, slot: nat,
                       ghost names: seq<bytes>)
    requires user in manager.users && slot < manager.users[user].connections.Length && |pad| == 4
    requires AllUploads(ps, names, client.dir.files, user)
    modifies manager`store, manager.users[user].connections, client.dir
    ensures manager.store == S.ApplyAll(S.AtMaster, old(manager.store), Requests(user, ps))
    ensures client.dir.files == old(client.dir.files)
  {
    for k := 0 to |ps|
      invariant client.dir.files == old(client.dir.files)
      invariant manager.store == S.ApplyAll(S.AtMaster, old(manager.store), Requests(user, ps[..k]))
    {
      OneUpload(manager, client, ps[k], pad, user, slot, names[k]);
      ghost var rs := Requests(user, ps[..k + 1]);
      assert ps[..k + 1][..k] == ps[..k];
      assert rs[..|rs| - 1] == Requests(user, ps[..k]);
    }
    assert ps[..|ps|] == ps;
  }

  lemma UploadsCanBeForwarded(names: seq<bytes>, dir: Content, user: bytes)
    requires forall x :: x in names ==> x in dir && Fit(x, dir[x])
    requires Portable(dir, user)
    ensures AllUploads(Uploads(names, dir), names, dir, user)
  {
    UploadsAreUploads(names, dir);
    forall k | 0 <= k < |names|
      ensures Signable(Uploads(names, dir)[k], user)
    {
      UploadPacket(names, dir, k);
    }
  }

  /** The whole exchange, foreseen: what the server answers, what the client then sends, and what comes of it. */
  lemma ExchangeForeseen(store: S.Store, user: bytes, own: Content, entries: seq<Entry>, readdir: ReadDir)
    returns (answer: seq<Packet>, whole: Content, sent: seq<Packet>, uploaded: seq<bytes>)
    requires user in store.dirs && AllFit(S.FilesOf(store, user)) && AllFit(own) && Lists(readdir)
    requires Enumerates(entries, S.FilesOf(store, user)) && |S.FilesOf(store, user)| < TWO_31
    requires Portable(own + S.FilesOf(store, user), user)
    ensures |Names(entries)| == |S.FilesOf(store, user)|
    ensures answer == Answer(Names(entries), S.FilesOf(store, user)) && whole == own + S.FilesOf(store, user)
    ensures (forall k :: 0 <= k < |answer| ==> GoodAnswer(answer[k]))
            && Run(own, answer, readdir) == Synced(whole, sent) && AllUploads(sent, uploaded, whole, user)
    ensures Stored(store, user, sent, if 1 <= |Names(entries)| <= 65535 then whole else S.FilesOf(store, user))
  {
    var server := S.FilesOf(store, user);
    NamesCount(entries, server);
    AfterWholeAnswer(server, own, Names(entries), readdir);
    UploadedAreStored(store, user, own, |server|, readdir);
    answer, whole := Answer(Names(entries), server), own + server;
    uploaded := Uploaded(whole, |server|, readdir);
    sent := Uploads(uploaded, whole);
    UploadsCanBeForwarded(uploaded, whole, user);
  }

  /** The request itself: the answer is the list of the user's files, and nothing changes. */
  method AskForSync(manager: M.Manager, request: Packet, pad: bytes, user: bytes, slot: nat, entries: seq<Entry>)
    returns (replies: seq<Packet>)
    requires user in manager.users && slot < manager.users[user].connections.Length && |pad| == 4
    requires request.ptype == SYNC_DIR_REQ && Signable(request, user) && user in manager.store.dirs
    requires AllFit(S.FilesOf(manager.store, user)) && Enumerates(entries, S.FilesOf(manager.store, user))
    requires |Names(entries)| < TWO_31
    modifies manager`store, manager.users[user].connections
    ensures manager.store == old(manager.store)
    ensures replies == Answer(Names(entries), S.FilesOf(manager.store, user))
  {
    var letters, shared, sharedWith;
    letters, replies, shared, sharedWith := manager.HandleConnection(request, pad, user, slot, entries);
  }

  /** From the answer on: the client reads it, and the master handles what the client then sends. */
  method AnswerToEnd(manager: M.Manager, client: Client, answer: seq<Packet>, pad: bytes, user: bytes, slot: nat,
                     readdir: ReadDir, ghost whole: Content, ghost sent: seq<Packet>, ghost uploaded: seq<bytes>,
                     ghost dir: Content)
    requires user in manager.users && slot < manager.users[user].connections.Length && |pad| == 4
    requires Lists(readdir) && AllFit(client.dir.files) && forall k :: 0 <= k < |answer| ==> GoodAnswer(answer[k])
    requires Run(client.dir.files, answer, readdir) == Synced(whole, sent)
    requires AllUploads(sent, uploaded, whole, user) && Stored(manager.store, user, sent, dir)
    modifies manager`store, manager.users[user].connections, client.dir
    ensures client.dir.files == whole && LeavesBehind(old(manager.store), manager.store, user, dir)
  {
    var uploads := ReadAnswer(client, answer, readdir);
    HandleUploads(manager, client, uploads, pad, user, slot, uploaded);
  }

  /**
   * A client synchronises for the first time with a server that already knows its user: the request, the whole answer,
   * the uploads it sets off, and their echo.  The client ends with the server's files plus its own others, and so does
   * the server if its files can be counted in 16 bits; otherwise it keeps what it had.  Nobody else's files change.
   */
  method FirstSync(manager: M.Manager, client: Client, request: Packet, pad: bytes, user: bytes, slot: nat,
                   entries: seq<Entry>, readdir: ReadDir)
    requires user in manager.users && slot < manager.users[user].connections.Length && |pad| == 4
    requires request.ptype == SYNC_DIR_REQ && Signable(request, user) && user in manager.store.dirs
    requires AllFit(S.FilesOf(manager.store, user)) && AllFit(client.dir.files) && Lists(readdir)
    requires Enumerates(entries, S.FilesOf(manager.store, user)) && |S.FilesOf(manager.store, user)| < TWO_31
    requires Portable(client.dir.files + S.FilesOf(manager.store, user), user)
    modifies manager`store, manager.users[user].connections, client.dir
    ensures client.dir.files == old(client.dir.files) + S.FilesOf(old(manager.store), user)
    ensures var server := S.FilesOf(old(manager.store), user);
            LeavesBehind(old(manager.store), manager.store, user,
                         if 1 <= |server| <= 65535 then old(client.dir.files) + server else server)
  {
    ghost var answer, whole, sent, uploaded
      := ExchangeForeseen(manager.store, user, client.dir.files, entries, readdir);
    ghost var dir := if 1 <= |Names(entries)| <= 65535 then whole else S.FilesOf(manager.store, user);
    var replies := AskForSync(manager, request, pad, user, slot, entries);
    AnswerToEnd(manager, client, replies, pad, user, slot, readdir, whole, sent, uploaded, dir);
  }
}
