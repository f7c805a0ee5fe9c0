/** How packets denote the records of the replication protocol, at the master and at a backup. */
module Records {
  import opened Bytes
  import opened Packets
  import opened Signing
  import F = Files
  import S = Stores

  /** What the handlers take for granted of a client's packet. */
  predicate WellFormed(p: Packet) {
    p.ptype == UPLOAD_REQ ==> F.WellFormed(p.payload)
  }

  /** The request the master's handler finds in a client's packet. */
  function OpOf(p: Packet): S.Op
    requires WellFormed(p)
  {
    if p.ptype == SYNC_DIR_REQ then S.SyncDir
    else if p.ptype == UPLOAD_REQ then
      var f := F.Deserialize(p.payload);
      S.Upload(f.name, f.data)
    else if p.ptype == DELETE_REQ then S.Delete(Text(p))
    else if p.ptype == LOGOUT_REQ then S.Logout
    else S.Other
  }

  predicate WellFormedAtBackup(p: Packet) {
    WellSigned(p) && (p.ptype == SIGNED_PACKET ==> WellFormed(Extract(p).p))
  }

  /** The record a backup finds in a signed packet: its own switch, on the packet inside. */
  function RecordOf(p: Packet): S.Record
    requires p.ptype == SIGNED_PACKET && WellFormedAtBackup(p)
  {
    var s := Extract(p);
    if s.p.ptype == LOGIN_REQ then S.Login(s.user)
    else if s.p.ptype == UPLOAD_REQ then
      var f := F.Deserialize(s.p.payload);
      S.Client(s.user, S.Upload(f.name, f.data))
    else if s.p.ptype == DELETE_REQ then S.Client(s.user, S.Delete(Text(s.p)))
    else S.Client(s.user, S.Other)
  }

  /** Requests that change files, as opposed to those a backup passes over. */
  predicate ChangesFiles(op: S.Op) {
    op.Upload? || op.Delete?
  }

  /**
   * The backup does to its files what the record the master broadcast says, whatever client packet it was: the wrapped
   * packet is decoded to the same upload or delete of the same user, and everything else leaves the files alone.
   */
  lemma BackupDecodesSameRequest(p: Packet, pad: bytes, user: bytes)
    requires WellFormed(p) && p.ptype != LOGIN_REQ && Signable(p, user) && |pad| == 4 && '\0' !in user
    ensures var w := Sign(p, pad, user);
            && w.ptype == SIGNED_PACKET && WellFormedAtBackup(w)
            && RecordOf(w).Client? && RecordOf(w).user == user
            && (ChangesFiles(OpOf(p)) || ChangesFiles(RecordOf(w).op) ==> RecordOf(w).op == OpOf(p))
            && forall s :: S.ApplyRecord(S.AtBackup, s, RecordOf(w))
                           == S.ApplyRecord(S.AtBackup, s, S.Client(user, OpOf(p)))
  {
    SignatureRoundTrip(p, pad, user);
  }

  /** The login record: the user's name signs a packet whose payload is the client's address. */
  function LoginPacket(addr: bytes): Packet {
    Packet(LOGIN_REQ, 0, 1, addr)
  }

  lemma BackupDecodesLogin(addr: bytes, pad: bytes, user: bytes)
    requires Signable(LoginPacket(addr), user) && |pad| == 4 && '\0' !in user
    ensures var w := Sign(LoginPacket(addr), pad, user);
            && w.ptype == SIGNED_PACKET && WellFormedAtBackup(w)
            && RecordOf(w) == S.Login(user) && Extract(w).p.payload == addr
  {
    SignatureRoundTrip(LoginPacket(addr), pad, user);
  }
}
