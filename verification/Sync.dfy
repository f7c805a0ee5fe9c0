/** The first synchronisation: the server sends every file, then the client uploads everything it holds. */
module Sync {
  import opened Bytes
  import opened Packets
  import opened Files
  import opened Listing
  import opened Wrappers
  import R = Records
  import S = Stores

  type Content = map<bytes, bytes>

  /** Names that survive the listing and the name array, data whose length survives the size field. */
  predicate Fit(name: bytes, data: bytes) {
    '\n' !in name && '\0' !in name && |name| < NAME_SIZE && |data| + FILE_HEADER < TWO_31
  }

  ghost predicate AllFit(dir: Content) {
    forall x :: x in dir ==> Fit(x, dir[x])
  }

  /** What readdir may report of a directory: each regular file once, in any order, and whatever else is there. */
  ghost predicate Enumerates(entries: seq<Entry>, dir: Content) {
    && (forall i :: 0 <= i < |entries| ==> Stamped(entries[i]))
    && (forall i, j :: 0 <= i < j < |Names(entries)| ==> Names(entries)[i] != Names(entries)[j])
    && (forall x :: x in Names(entries) <==> x in dir)
  }

  /** A packet with one file in it. */
  function FilePacket(ptype: u16, seqn: u16, total: u32, name: bytes, data: bytes): Packet
    requires Fit(name, data)
  {
    CStrHasNoNul(name);
    Packet(ptype, seqn, total, Serialize(FileValue(name, data)))
  }

  lemma FilePacketCarries(ptype: u16, seqn: u16, total: u32, name: bytes, data: bytes)
    requires Fit(name, data)
    ensures var p := FilePacket(ptype, seqn, total, name, data);
            WellFormed(p.payload) && Deserialize(p.payload) == FileValue(name, data)
  {
    CStrHasNoNul(name);
    FileRoundTrip(FileValue(name, data));
  }

  /** Reading one file off the disk into the form in which it is sent. */
  method Load(dir: Directory, name: bytes) returns (payload: bytes)
    requires name in dir.files && Fit(name, dir.files[name])
    ensures forall ptype, seqn, total ::
              Packet(ptype, seqn, total, payload) == FilePacket(ptype, seqn, total, name, dir.files[name])
  {
    var file := new File(name);
    var err := file.ReadFile(dir);
    CStrHasNoNul(name);
    payload := file.ToData();
  }

  // ------------------------------------------------------------------ the server's answer

  /** The k-th file of n: the counter is cut to 16 bits, the total is not. */
  function SyncPackets(names: seq<bytes>, dir: Content, n: u32): (ps: seq<Packet>)
    requires forall x :: x in names ==> x in dir && Fit(x, dir[x])
    ensures |ps| == |names|
  {
    if names == [] then []
    else
      var k, x := |names|, names[|names| - 1];
      SyncPackets(names[..k - 1], dir, n) + [FilePacket(SYNC_DIR_ACCEPT_RESP, k % TWO_16, n, x, dir[x])]
  }

  const NOTHING_TO_SYNC := Packet(SYNC_DIR_ACCEPT_RESP, 0, 0, "\0")

  function Answer(names: seq<bytes>, dir: Content): seq<Packet>
    requires |names| < TWO_31
    requires forall x :: x in names ==> x in dir && Fit(x, dir[x])
  {
    if names == [] then [NOTHING_TO_SYNC] else SyncPackets(names, dir, |names|)
  }

  /** The packet brings one file of the directory, as the k-th of n. */
  predicate CarriesFile(p: Packet, name: bytes, dir: Content, k: nat, n: nat) {
    && p.ptype == SYNC_DIR_ACCEPT_RESP && p.seqn == k % TWO_16 && p.total == n
    && WellFormed(p.payload) && name in dir && Deserialize(p.payload) == FileValue(name, dir[name])
  }

  /** Every file of the list, numbered from 1. */
  ghost predicate CarriesFiles(ps: seq<Packet>, names: seq<bytes>, dir: Content) {
    |ps| == |names| && forall k :: 0 <= k < |ps| ==> CarriesFile(ps[k], names[k], dir, k + 1, |ps|)
  }

  lemma {:induction false} AnswerPacket(names: seq<bytes>, dir: Content, n: u32, k: nat)
    requires k < |names| && forall x :: x in names ==> x in dir && Fit(x, dir[x])
    ensures names[k] in dir && Fit(names[k], dir[names[k]])
    ensures SyncPackets(names, dir, n)[k]
            == FilePacket(SYNC_DIR_ACCEPT_RESP, (k + 1) % TWO_16, n, names[k], dir[names[k]])
  {
    if k < |names| - 1 {
      AnswerPacket(names[..|names| - 1], dir, n, k);
    }
  }

  lemma AnswerCarriesFiles(names: seq<bytes>, dir: Content, n: u32)
    requires forall x :: x in names ==> x in dir && Fit(x, dir[x])
    ensures n == |names| ==> CarriesFiles(SyncPackets(names, dir, n), names, dir)
  {
    forall k | 0 <= k < |names|
      ensures CarriesFile(SyncPackets(names, dir, n)[k], names[k], dir, k + 1, n)
    {
      AnswerPacket(names, dir, n, k);
      FilePacketCarries(SYNC_DIR_ACCEPT_RESP, (k + 1) % TWO_16, n, names[k], dir[names[k]]);
    }
  }

  lemma ListedNames(entries: seq<Entry>, dir: Content)
    requires AllFit(dir) && Enumerates(entries, dir) && Names(entries) != []
    ensures ParseNames(GetLine(ListingText(entries)).rest) == Names(entries)
  {
    NamesOfRegular(entries);
    forall i | 0 <= i < |entries| && entries[i].regular
      ensures '\n' !in entries[i].name
    {
      assert entries[i].name in dir;
    }
    ListingRoundTrip(entries);
  }

  /** The sending loop of sync_files over the names it has read out of the listing. */
  method SendFiles(dir: Directory, names: seq<bytes>, total: u32) returns (sent: seq<Packet>)
    requires forall x :: x in names ==> x in dir.files && Fit(x, dir.files[x])
    ensures sent == SyncPackets(names, dir.files, total)
  {
    sent := [];
    for k := 0 to |names|
      invariant sent == SyncPackets(names[..k], dir.files, total)
    {
      assert names[k] in dir.files;
      var payload := Load(dir, names[k]);
      assert names[..k + 1][..k] == names[..k];
      sent := sent + [Packet(SYNC_DIR_ACCEPT_RESP, (k + 1) % TWO_16, total, payload)];
    }
    assert names[..|names|] == names;
  }

  /** sync_files: list the directory, read the names back out of the text, send each file. */
  method SyncFiles(dir: Directory, found: Option<seq<Entry>>) returns (sent: seq<Packet>)
    requires found.Some? ==>
               AllFit(dir.files) && Enumerates(found.value, dir.files) && |Names(found.value)| < TWO_31
    ensures sent == if found.Some? then Answer(Names(found.value), dir.files) else [NOTHING_TO_SYNC]
    ensures if found.Some? && Names(found.value) != [] then CarriesFiles(sent, Names(found.value), dir.files)
            else |sent| == 1 && sent[0].ptype == SYNC_DIR_ACCEPT_RESP && sent[0].total == 0
  {
    if found.Some? {
      AnswerCarriesFiles(Names(found.value), dir.files, |Names(found.value)|);
    }
    var total, out := ListDirectory(found);
    if total <= 0 {
      return [NOTHING_TO_SYNC];
    }
    ListedNames(found.value, dir.files);
    var names := ParseListing(out);
    assert forall x :: x in names ==> x in dir.files && Fit(x, dir.files[x]);
    sent := SendFiles(dir, names, total);
  }

  // ------------------------------------------------------------------ the client

  function Uploads(names: seq<bytes>, dir: Content): (ps: seq<Packet>)
    requires forall x :: x in names ==> x in dir && Fit(x, dir[x])
    ensures |ps| == |names|
  {
    if names == [] then []
    else
      var x := names[|names| - 1];
      Uploads(names[..|names| - 1], dir) + [FilePacket(UPLOAD_REQ, 0, 0, x, dir[x])]
  }

  /** The packet is, for the master's handler, the upload of that file. */
  predicate IsUploadOf(p: Packet, name: bytes, data: bytes) {
    p.ptype == UPLOAD_REQ && R.WellFormed(p) && R.OpOf(p) == S.Upload(name, data)
  }

  lemma FilePacketUploads(name: bytes, data: bytes)
    requires Fit(name, data)
    ensures IsUploadOf(FilePacket(UPLOAD_REQ, 0, 0, name, data), name, data)
  {
    FilePacketCarries(UPLOAD_REQ, 0, 0, name, data);
  }

  lemma {:induction false} UploadPacket(names: seq<bytes>, dir: Content, k: nat)
    requires k < |names| && forall x :: x in names ==> x in dir && Fit(x, dir[x])
    ensures names[k] in dir && Fit(names[k], dir[names[k]])
    ensures Uploads(names, dir)[k] == FilePacket(UPLOAD_REQ, 0, 0, names[k], dir[names[k]])
  {
    if k < |names| - 1 {
      UploadPacket(names[..|names| - 1], dir, k);
    }
  }

  lemma UploadsAreUploads(names: seq<bytes>, dir: Content)
    requires forall x :: x in names ==> x in dir && Fit(x, dir[x])
    ensures forall k :: 0 <= k < |names| ==>
                          names[k] in dir && IsUploadOf(Uploads(names, dir)[k], names[k], dir[names[k]])
  {
    forall k | 0 <= k < |names|
      ensures names[k] in dir && IsUploadOf(Uploads(names, dir)[k], names[k], dir[names[k]])
    {
      UploadPacket(names, dir, k);
      FilePacketUploads(names[k], dir[names[k]]);
    }
  }

  /** The client takes the packet it is looking at for the last one. */
  predicate LooksLast(p: Packet) {
    p.total > 0 && p.seqn == p.total
  }

  /** The client's directory after one answer packet. */
  function AfterAnswer(dir: Content, p: Packet): Content
    requires p.total > 0 ==> WellFormed(p.payload)
  {
    if p.total == 0 then dir
    else
      var f := Deserialize(p.payload);
      dir[f.name := f.data]
  }

  /** And after one broadcast. */
  function AfterBroadcast(dir: Content, p: Packet): Content
    requires p.ptype == UPLOAD_BROADCAST ==> WellFormed(p.payload)
  {
    if p.ptype == UPLOAD_BROADCAST then
      var f := Deserialize(p.payload);
      dir[f.name := f.data]
    else if p.ptype == DELETE_BROADCAST then dir - {Text(p)}
    else dir
  }

  class Client {
    const dir: Directory

    constructor (dir: Directory)
      ensures this.dir == dir
    {
      this.dir := dir;
    }

    method SendUploads(names: seq<bytes>) returns (sent: seq<Packet>)
      requires forall x :: x in names ==> x in dir.files && Fit(x, dir.files[x])
      ensures sent == Uploads(names, dir.files)
    {
      sent := [];
      for k := 0 to |names|
        invariant sent == Uploads(names[..k], dir.files)
      {
        assert names[k] in dir.files;
        var payload := Load(dir, names[k]);
        assert names[..k + 1][..k] == names[..k];
        sent := sent + [Packet(UPLOAD_REQ, 0, 0, payload)];
      }
      assert names[..|names|] == names;
    }

    /** The re-upload pass over the client's own listing. */
    method UploadAll(entries: seq<Entry>) returns (sent: seq<Packet>)
      requires AllFit(dir.files) && Enumerates(entries, dir.files)
      ensures sent == Uploads(Names(entries), dir.files)
      ensures |sent| == |Names(entries)|
      ensures forall k :: 0 <= k < |sent| ==>
                            Names(entries)[k] in dir.files
                            && IsUploadOf(sent[k], Names(entries)[k], dir.files[Names(entries)[k]])
    {
      UploadsAreUploads(Names(entries), dir.files);
      var total, out := ListDirectory(Some(entries));
      if total <= 0 {
        return [];
      }
      ListedNames(entries, dir.files);
      var names := ParseListing(out);
      assert forall x :: x in names ==> x in dir.files && Fit(x, dir.files[x]);
      sent := SendUploads(names);
    }

    /** SYNC_DIR_ACCEPT_RESP: write the file; after what looks like the last one, upload the whole directory. */
    method OnSyncPacket(p: Packet, entries: seq<Entry>) returns (sent: seq<Packet>)
      requires p.total > 0 ==> WellFormed(p.payload)
      requires AllFit(AfterAnswer(dir.files, p))
      requires LooksLast(p) ==> Enumerates(entries, AfterAnswer(dir.files, p))
      modifies dir
      ensures dir.files == AfterAnswer(old(dir.files), p)
      ensures sent == if LooksLast(p) then Uploads(Names(entries), dir.files) else []
    {
      sent := [];
      if p.total > 0 {
        var file := new File([]);
        file.FromData(p.payload);
        assert file.Value() == Deserialize(p.payload);
        file.WriteFile(dir);
        if p.seqn == p.total {
          sent := UploadAll(entries);
        }
      }
    }

    /** UPLOAD_BROADCAST and DELETE_BROADCAST: another connection of the user has changed a file. */
    method OnBroadcast(p: Packet)
      requires p.ptype == UPLOAD_BROADCAST ==> WellFormed(p.payload)
      modifies dir
      ensures dir.files == AfterBroadcast(old(dir.files), p)
      ensures p.ptype == UPLOAD_BROADCAST ==>
                var f := Deserialize(p.payload); dir.files == old(dir.files)[f.name := f.data]
      ensures p.ptype == DELETE_BROADCAST ==> dir.files == old(dir.files) - {Text(p)}
    {
      if p.ptype == UPLOAD_BROADCAST {
        var file := new File([]);
        file.FromData(p.payload);
        assert file.Value() == Deserialize(p.payload);
        file.WriteFile(dir);
      } else if p.ptype == DELETE_BROADCAST {
        dir.files := dir.files - {Text(p)};
      }
    }
  }

  // ------------------------------------------------------------------ convergence

  /**
   * Of the n packets that announce n files the client takes exactly the last for the last when n fits the 16-bit
   * counter, and none when it does not.
   */
  lemma {:induction false} EndOfSyncDetected(names: seq<bytes>, dir: Content, n: u32, k: nat)
    requires forall x :: x in names ==> x in dir && Fit(x, dir[x])
    requires k < |names| <= n
    ensures LooksLast(SyncPackets(names, dir, n)[k]) <==> k + 1 == n <= 65535
  {
    if k < |names| - 1 {
      EndOfSyncDetected(names[..|names| - 1], dir, n, k);
    } else if n <= 65535 {
      assert |names| % TWO_16 == |names|;
    }
  }

  /** `dir` with the files named in `names` replaced by those of `src`. */
  function Overlay(dir: Content, names: seq<bytes>, src: Content): Content
    requires forall x :: x in names ==> x in src
  {
    if names == [] then dir
    else
      var x := names[|names| - 1];
      Overlay(dir, names[..|names| - 1], src)[x := src[x]]
  }

  lemma {:induction false} OverlayIsUpdate(dir: Content, names: seq<bytes>, src: Content)
    requires forall x :: x in names ==> x in src
    ensures Overlay(dir, names, src).Keys == dir.Keys + (set x | x in names)
    ensures forall x :: x in Overlay(dir, names, src) ==>
                          Overlay(dir, names, src)[x] == if x in names then src[x] else dir[x]
  {
    if names != [] {
      OverlayIsUpdate(dir, names[..|names| - 1], src);
      assert names == names[..|names| - 1] + [names[|names| - 1]];
    }
  }

  /** A client's readdir: for every content of the directory, some listing of it. */
  type ReadDir = Content -> seq<Entry>

  ghost predicate Lists(readdir: ReadDir) {
    forall dir: Content :: Enumerates(readdir(dir), dir)
  }

  predicate GoodAnswer(p: Packet) {
    p.total > 0 ==> WellFormed(p.payload) && Fit(Deserialize(p.payload).name, Deserialize(p.payload).data)
  }

  /** The client after a run of answer packets: its directory, and everything it has uploaded on the way. */
  datatype Synced = Synced(dir: Content, sent: seq<Packet>)

  ghost function RunOne(before: Synced, p: Packet, readdir: ReadDir): (r: Synced)
    requires Lists(readdir) && AllFit(before.dir) && GoodAnswer(p)
    ensures AllFit(r.dir)
  {
    var after := AfterAnswer(before.dir, p);
    assert Enumerates(readdir(after), after);
    Synced(after, before.sent + if LooksLast(p) then Uploads(Names(readdir(after)), after) else [])
  }

  ghost function Run(dir: Content, ps: seq<Packet>, readdir: ReadDir): (r: Synced)
    requires Lists(readdir) && AllFit(dir) && forall k :: 0 <= k < |ps| ==> GoodAnswer(ps[k])
    ensures AllFit(r.dir)
  {
    if ps == [] then Synced(dir, [])
    else
      assert GoodAnswer(ps[|ps| - 1]);
      RunOne(Run(dir, ps[..|ps| - 1], readdir), ps[|ps| - 1], readdir)
  }

  lemma {:induction false} AnswersAreGood(names: seq<bytes>, dir: Content, n: u32)
    requires forall x :: x in names ==> x in dir && Fit(x, dir[x])
    ensures forall k :: 0 <= k < |names| ==> GoodAnswer(SyncPackets(names, dir, n)[k])
    ensures forall k :: 0 <= k < |names| ==> SyncPackets(names, dir, n)[k].total == n
  {
    if names != [] {
      var x := names[|names| - 1];
      AnswersAreGood(names[..|names| - 1], dir, n);
      FilePacketCarries(SYNC_DIR_ACCEPT_RESP, |names| % TWO_16, n, x, dir[x]);
    }
  }

  lemma RunOneFile(dir: Content, p: Packet, name: bytes, data: bytes, readdir: ReadDir)
    requires Lists(readdir) && AllFit(dir) && Fit(name, data)
    requires p.total > 0 && WellFormed(p.payload) && Deserialize(p.payload) == FileValue(name, data)
    ensures var r := RunOne(Synced(dir, []), p, readdir);
            && r.dir == dir[name := data]
            && r.sent == if LooksLast(p) then Uploads(Names(readdir(r.dir)), r.dir) else []
  {
  }

  /** While the answer comes in the client's directory fills up; only the true last packet sets off the uploads. */
  lemma {:induction false} RunOverlays(dir: Content, names: seq<bytes>, src: Content, n: u32, readdir: ReadDir)
    requires Lists(readdir) && AllFit(dir) && 0 < n && |names| <= n
    requires forall x :: x in names ==> x in src && Fit(x, src[x])
    requires forall k :: 0 <= k < |names| ==> GoodAnswer(SyncPackets(names, src, n)[k])
    ensures var r := Run(dir, SyncPackets(names, src, n), readdir);
            && r.dir == Overlay(dir, names, src)
            && r.sent == if |names| == n <= 65535 then Uploads(Names(readdir(r.dir)), r.dir) else []
  {
    if names != [] {
      var before, x := names[..|names| - 1], names[|names| - 1];
      var ps := SyncPackets(names, src, n);
      assert ps[..|ps| - 1] == SyncPackets(before, src, n);
      AnswersAreGood(before, src, n);
      RunOverlays(dir, before, src, n, readdir);
      FilePacketCarries(SYNC_DIR_ACCEPT_RESP, |names| % TWO_16, n, x, src[x]);
      EndOfSyncDetected(names, src, n, |names| - 1);
      RunOneFile(Overlay(dir, before, src), ps[|ps| - 1], x, src[x], readdir);
    }
  }

  lemma {:induction false} DistinctCount(names: seq<bytes>, keys: set<bytes>)
    requires forall i, j :: 0 <= i < j < |names| ==> names[i] != names[j]
    requires keys == set x | x in names
    ensures |keys| == |names|
  {
    if names != [] {
      var before, x := names[..|names| - 1], names[|names| - 1];
      assert names == before + [x];
      assert keys - {x} == set y | y in before;
      DistinctCount(before, keys - {x});
    }
  }

  lemma OverlayWhole(receiver: Content, names: seq<bytes>, src: Content)
    requires forall x :: x in names <==> x in src
    ensures Overlay(receiver, names, src) == receiver + src
  {
    OverlayIsUpdate(receiver, names, src);
    assert src.Keys == set x | x in names;
  }

  lemma Merging(server: Content, client: Content)
    ensures server + (client + server) == client + server
    ensures (client + server) + (client + server) == client + server
    ensures server == client + server <==> client.Keys <= server.Keys
  {
    assert (client + server).Keys == client.Keys + server.Keys;
    if client.Keys <= server.Keys {
      assert server == client + server;
    }
  }

  lemma AfterEmptyAnswer(client: Content, readdir: ReadDir)
    requires Lists(readdir) && AllFit(client) && GoodAnswer(NOTHING_TO_SYNC)
    ensures Run(client, [NOTHING_TO_SYNC], readdir) == Synced(client, [])
  {
    var ps := [NOTHING_TO_SYNC];
    assert ps[..|ps| - 1] == [];
    assert Run(client, ps, readdir) == RunOne(Synced(client, []), NOTHING_TO_SYNC, readdir);
  }

  /** What the client holds and has uploaded once it has read the server's whole answer. */
  lemma AfterWholeAnswer(server: Content, client: Content, names: seq<bytes>, readdir: ReadDir)
    requires AllFit(server) && AllFit(client) && Lists(readdir) && |names| < TWO_31
    requires forall x :: x in names <==> x in server
    ensures forall k :: 0 <= k < |Answer(names, server)| ==> GoodAnswer(Answer(names, server)[k])
    ensures Run(client, Answer(names, server), readdir)
            == Synced(client + server,
                      if 1 <= |names| <= 65535 then Uploads(Names(readdir(client + server)), client + server) else [])
  {
    if names == [] {
      assert server == map[];
      AfterEmptyAnswer(client, readdir);
    } else {
      AnswersAreGood(names, server, |names|);
      RunOverlays(client, names, server, |names|, readdir);
      OverlayWhole(client, names, server);
    }
  }
}
