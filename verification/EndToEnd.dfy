/** From a file on a client to the same file on every backup, through every format and every handler in between. */
module EndToEnd {
  import opened Bytes
  import opened Packets
  import opened Signing
  import opened Sockets
  import F = Files
  import I = InternalRouters
  import J = Joining
  import M = Managers
  import R = Records
  import S = Stores

  /** A way for a byte stream to arrive in pieces. */
  ghost predicate Cuts(cut: bytes -> seq<bytes>) {
    && (forall b: bytes :: Flatten(cut(b)) == b)
    && (forall b: bytes, k :: 0 <= k < |cut(b)| ==> cut(b)[k] != [])
  }

  /** The lengths that have to fit an int: file, packet, and packet inside a signed packet inside a frame. */
  predicate Fits(f: F.FileValue, user: bytes) {
    3 * HEADER_SIZE + F.FILE_HEADER + |f.data| + |user| + 1 < TWO_31
  }

  /** One packet over one connection: written whole, arriving in any pieces. */
  method Carry(p: Packet, pad: bytes, cut: bytes -> seq<bytes>) returns (received: Packet)
    requires Sendable(p) && |pad| == 4 && Cuts(cut)
    ensures received == p
  {
    var sender := new Socket([]);
    sender.WritePacket(p, pad);
    ReadOneOfEncoded(p, pad, []);
    assert sender.written == Encode(p, pad) == Encode(p, pad) + [];
    var receiver := new Socket(cut(sender.written));
    var r := receiver.ReadPacket();
    received := r.p;
  }

  /** The request a client makes of a file. */
  function UploadRequest(f: F.FileValue): Packet
    requires F.Storable(f)
  {
    Packet(UPLOAD_REQ, 0, 0, F.Serialize(f))
  }

  /** An upload of an ordinary file by an ordinary user. */
  predicate Ordinary(f: F.FileValue, user: bytes) {
    '\0' !in f.name && |f.name| < F.NAME_SIZE && '\0' !in user && Fits(f, user)
  }

  lemma RequestIsUnderstood(f: F.FileValue, user: bytes)
    requires Ordinary(f, user)
    ensures F.Storable(f)
    ensures var p := UploadRequest(f);
            Signable(p, user) && Sendable(p) && R.WellFormed(p) && R.OpOf(p) == S.Upload(f.name, f.data)
  {
    CStrHasNoNul(f.name);
    F.FileRoundTrip(f);
  }

  /** What a letter with such an upload does to a backup: to its store, and to nothing else. */
  lemma LetterIsUnderstood(f: F.FileValue, user: bytes, pad: bytes, r: I.Replica)
    requires Ordinary(f, user) && |pad| == 4 && F.Storable(f) && Signable(UploadRequest(f), user)
    ensures var w := Sign(UploadRequest(f), pad, user);
            && Sendable(w) && R.WellFormedAtBackup(w)
            && I.OnPacket(r, w)
               == r.(store := S.ApplyRecord(S.AtBackup, r.store, S.Client(user, S.Upload(f.name, f.data))))
  {
    RequestIsUnderstood(f, user);
    R.BackupDecodesSameRequest(UploadRequest(f), pad, user);
    SignatureRoundTrip(UploadRequest(f), pad, user);
  }

  /** The client's file travels to the master, which writes to its backups and handles it. */
  method UploadToMaster(file: F.File, user: bytes, slot: nat, manager: M.Manager, pads: (bytes, bytes),
                        cut: bytes -> seq<bytes>)
    returns (letters: seq<J.Letter>)
    requires Ordinary(file.Value(), user) && |pads.0| == |pads.1| == 4 && Cuts(cut)
    requires user in manager.users && slot < manager.users[user].connections.Length
    modifies manager`store, manager.users[user].connections
    ensures F.Storable(old(file.Value())) && Signable(UploadRequest(old(file.Value())), user)
    ensures |letters| == |manager.router.others|
    ensures forall k :: 0 <= k < |letters| ==>
                          letters[k] == J.Letter(k, Sign(UploadRequest(old(file.Value())), pads.1, user))
    ensures manager.store == S.ApplyRecord(S.AtMaster, old(manager.store),
                                           S.Client(user, S.Upload(old(file.filename), old(file.data[..]))))
  {
    RequestIsUnderstood(file.Value(), user);
    var payload := file.ToData();
    var request := Carry(Packet(UPLOAD_REQ, 0, 0, payload), pads.0, cut);
    var replies, shared, sharedWith;
    letters, replies, shared, sharedWith := manager.HandleConnection(request, pads.1, user, slot, []);
  }

  /** One backup reads a letter off its connection and handles it. */
  method Deliver(letter: Packet, pad: bytes, cut: bytes -> seq<bytes>, backup: I.InternalRouter)
    requires Sendable(letter) && |pad| == 4 && Cuts(cut)
    requires R.WellFormedAtBackup(letter) && !backup.crashed
    modifies backup
    ensures backup.State() == I.OnPacket(old(backup.State()), letter)
  {
    var copy := Carry(letter, pad, cut);
    backup.HandlePacket(copy);
  }

  /** Every backup reads the letter addressed to it off its connection and handles it. */
  method DeliverAll(letters: seq<J.Letter>, ghost letter: Packet, pad: bytes, cut: bytes -> seq<bytes>,
                    backups: seq<I.InternalRouter>)
    requires Sendable(letter) && |pad| == 4 && Cuts(cut) && R.WellFormedAtBackup(letter)
    requires |letters| == |backups| && forall k :: 0 <= k < |letters| ==> letters[k] == J.Letter(k, letter)
    requires forall k :: 0 <= k < |backups| ==> !backups[k].crashed
    requires forall j, k :: 0 <= j < k < |backups| ==> backups[j] != backups[k]
    modifies backups
    ensures forall k :: 0 <= k < |backups| ==> backups[k].State() == I.OnPacket(old(backups[k].State()), letter)
  {
    for k := 0 to |letters|
      invariant forall j :: 0 <= j < k ==> backups[j].State() == I.OnPacket(old(backups[j].State()), letter)
      invariant forall j :: k <= j < |backups| ==> backups[j].State() == old(backups[j].State()) && !backups[j].crashed
    {
      Deliver(letters[k].p, pad, cut, backups[letters[k].to]);
    }
  }

  /**
   * Serialize, frame, read in any pieces, sign for each backup, store, frame, read in any pieces, unwrap, deserialize:
   * the master and every backup make of their stores what an upload of the client's bytes under the client's file
   * name by that user makes of them, and nothing else changes at a backup.
   */
  method UploadReachesBackups(file: F.File, user: bytes, slot: nat, manager: M.Manager, backups: seq<I.InternalRouter>,
                              pads: (bytes, bytes, bytes), cut: bytes -> seq<bytes>)
    requires Ordinary(file.Value(), user) && |pads.0| == |pads.1| == |pads.2| == 4 && Cuts(cut)
    requires user in manager.users && slot < manager.users[user].connections.Length
    requires |backups| == |manager.router.others| && forall k :: 0 <= k < |backups| ==> !backups[k].crashed
    requires forall j, k :: 0 <= j < k < |backups| ==> backups[j] != backups[k]
    modifies manager`store, manager.users[user].connections, backups
    ensures manager.store == S.ApplyRecord(S.AtMaster, old(manager.store),
                                           S.Client(user, S.Upload(old(file.filename), old(file.data[..]))))
    ensures forall k :: 0 <= k < |backups| ==>
                          var s := old(backups[k].State());
                          backups[k].State()
                          == s.(store := S.ApplyRecord(
                                           S.AtBackup, s.store,
                                           S.Client(user, S.Upload(old(file.filename), old(file.data[..])))))
  {
    ghost var f := file.Value();
    ghost var before := seq(|backups|, k requires 0 <= k < |backups| reads backups => backups[k].State());
    var letters := UploadToMaster(file, user, slot, manager, (pads.0, pads.1), cut);
    if |backups| > 0 {
      LetterIsUnderstood(f, user, pads.1, before[0]);
      DeliverAll(letters, letters[0].p, pads.2, cut, backups);
      forall k | 0 <= k < |backups|
        ensures backups[k].State() == before[k].(store := S.ApplyRecord(S.AtBackup, before[k].store,
                                                                        S.Client(user, S.Upload(f.name, f.data))))
      {
        LetterIsUnderstood(f, user, pads.1, before[k]);
      }
    }
  }
}
