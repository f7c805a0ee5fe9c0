/** The files a server keeps, and what one client request or login record does to them. */
module Stores {
  import opened Bytes
  import opened Wrappers

  type User = bytes
  type Name = bytes
  type Key = (User, Name)

  /** One directory per user; a file can only be written into a directory that exists. */
  datatype Store = Store(dirs: set<User>, files: map<Key, bytes>)

  datatype Op = SyncDir | Upload(name: Name, data: bytes) | Delete(name: Name) | Logout | Other

  /** What the master forwards to its backups: a login, or a client's packet wrapped with the user's name. */
  datatype Record = Login(user: User) | Client(user: User, op: Op)

  datatype Role = AtMaster | AtBackup

  /** The master creates a user's directory on the sync request, a backup on the login record. */
  predicate Opens(role: Role, r: Record) {
    match role
    case AtMaster => r.Client? && r.op.SyncDir?
    case AtBackup => r.Login?
  }

  function ApplyRecord(role: Role, s: Store, r: Record): Store {
    if Opens(role, r) then s.(dirs := s.dirs + {r.user})
    else if r.Client? && r.op.Upload? && r.user in s.dirs then s.(files := s.files[(r.user, r.op.name) := r.op.data])
    else if r.Client? && r.op.Delete? then s.(files := s.files - {(r.user, r.op.name)})
    else s
  }

  function ApplyAll(role: Role, s: Store, rs: seq<Record>): Store {
    if rs == [] then s else ApplyRecord(role, ApplyAll(role, s, rs[..|rs| - 1]), rs[|rs| - 1])
  }

  function Lookup(s: Store, u: User, f: Name): Option<bytes> {
    if (u, f) in s.files then Some(s.files[(u, f)]) else None
  }

  /** The directory of one user. */
  function FilesOf(s: Store, u: User): map<Name, bytes> {
    map k | k in s.files && k.0 == u :: k.1 := s.files[k]
  }

  // ------------------------------------------------------------------ one user's records

  function Of(u: User, rs: seq<Record>): seq<Record> {
    if rs == [] then []
    else if rs[|rs| - 1].user == u then Of(u, rs[..|rs| - 1]) + [rs[|rs| - 1]]
    else Of(u, rs[..|rs| - 1])
  }

  /** All that one user sees of one file: whether the directory is there, and what the file holds. */
  function View(s: Store, u: User, f: Name): (bool, Option<bytes>) {
    (u in s.dirs, Lookup(s, u, f))
  }

  /** A record changes what its user sees only on the ground of what its user sees, and nobody else's view. */
  lemma ViewStep(role: Role, s: Store, t: Store, r: Record, u: User, f: Name)
    requires View(s, u, f) == View(t, u, f)
    ensures View(ApplyRecord(role, s, r), u, f) == View(if r.user == u then ApplyRecord(role, t, r) else t, u, f)
  {
  }

  /** Only the user's own records matter to a user's files: records of different users commute. */
  lemma {:induction false} OtherUsersDoNotMatter(role: Role, s: Store, rs: seq<Record>, u: User, f: Name)
    ensures View(ApplyAll(role, s, rs), u, f) == View(ApplyAll(role, s, Of(u, rs)), u, f)
  {
    if rs != [] {
      var before, r := rs[..|rs| - 1], rs[|rs| - 1];
      OtherUsersDoNotMatter(role, s, before, u, f);
      ViewStep(role, ApplyAll(role, s, before), ApplyAll(role, s, Of(u, before)), r, u, f);
      if r.user == u {
        assert Of(u, rs)[..|Of(u, rs)| - 1] == Of(u, before);
      }
    }
  }

  predicate Touches(r: Record, f: Name) {
    r.Client? && (r.op.Upload? || r.op.Delete?) && r.op.name == f
  }

  ghost predicate Touched(rs: seq<Record>, f: Name) {
    exists k :: 0 <= k < |rs| && Touches(rs[k], f)
  }

  predicate Opened(role: Role, rs: seq<Record>) {
    exists j :: 0 <= j < |rs| && Opens(role, rs[j])
  }

  /**
   * The last record about `f` takes effect: it is a delete, or an upload that finds the user's directory there, from
   * the start or opened by an earlier record.
   */
  predicate LastTouchLands(role: Role, s: Store, u: User, rs: seq<Record>, f: Name) {
    rs != [] &&
    var before, r := rs[..|rs| - 1], rs[|rs| - 1];
    if Touches(r, f) then r.op.Delete? || u in s.dirs || Opened(role, before)
    else LastTouchLands(role, s, u, before, f)
  }

  /** What the last record about `f` leaves behind. */
  function LastWrite(rs: seq<Record>, f: Name): Option<bytes> {
    if rs == [] then None
    else
      var r := rs[|rs| - 1];
      if Touches(r, f) then (if r.op.Upload? then Some(r.op.data) else None)
      else LastWrite(rs[..|rs| - 1], f)
  }

  /** Every file lies in a directory that exists, as on any disk. */
  ghost predicate Housed(s: Store) {
    forall k :: k in s.files ==> k.0 in s.dirs
  }

  lemma {:induction false} StaysHoused(role: Role, s: Store, rs: seq<Record>)
    requires Housed(s)
    ensures Housed(ApplyAll(role, s, rs))
  {
    if rs != [] {
      StaysHoused(role, s, rs[..|rs| - 1]);
    }
  }

  /** A user's directory through an upload and through a delete, taken as an update of that directory. */
  lemma FilesOfUpload(role: Role, s: Store, u: User, f: Name, data: bytes)
    requires Housed(s)
    ensures FilesOf(ApplyRecord(role, s, Client(u, Upload(f, data))), u) == FilesOf(s, u)[f := data] <==> u in s.dirs
  {
    var after := FilesOf(ApplyRecord(role, s, Client(u, Upload(f, data))), u);
    if u in s.dirs {
      assert after == FilesOf(s, u)[f := data];
    } else {
      assert f !in after;
      assert f in FilesOf(s, u)[f := data];
    }
  }

  lemma FilesOfDelete(role: Role, s: Store, u: User, f: Name)
    ensures FilesOf(ApplyRecord(role, s, Client(u, Delete(f))), u) == FilesOf(s, u) - {f}
  {
  }

  lemma {:induction false} DirectoryAppears(role: Role, s: Store, u: User, rs: seq<Record>)
    requires forall k :: 0 <= k < |rs| ==> rs[k].user == u
    ensures u in ApplyAll(role, s, rs).dirs <==> u in s.dirs || Opened(role, rs)
  {
    if rs != [] {
      DirectoryAppears(role, s, u, rs[..|rs| - 1]);
    }
  }

  /** At the master a user has a directory from the start, or by a sync request of that user, and in no other way. */
  lemma {:induction false} DirectoriesAtMaster(s: Store, rs: seq<Record>, u: User)
    ensures u in ApplyAll(AtMaster, s, rs).dirs
            <==> u in s.dirs || exists k :: 0 <= k < |rs| && rs[k] == Client(u, SyncDir)
  {
    if rs != [] {
      DirectoriesAtMaster(s, rs[..|rs| - 1], u);
      assert forall k :: 0 <= k < |rs| - 1 ==> rs[k] == rs[..|rs| - 1][k];
    }
  }

  /** At a backup: from the start, or by a login record of that user. */
  lemma {:induction false} DirectoriesAtBackup(s: Store, rs: seq<Record>, u: User)
    ensures u in ApplyAll(AtBackup, s, rs).dirs
            <==> u in s.dirs || exists k :: 0 <= k < |rs| && rs[k] == Login(u)
  {
    if rs != [] {
      DirectoriesAtBackup(s, rs[..|rs| - 1], u);
      assert forall k :: 0 <= k < |rs| - 1 ==> rs[k] == rs[..|rs| - 1][k];
    }
  }

  /** So what a user uploads to the master after a sync request is stored, whatever came before and in between. */
  lemma UploadAfterSync(s: Store, rs: seq<Record>, k: nat, u: User, f: Name, data: bytes)
    requires k < |rs| && rs[k] == Client(u, SyncDir)
    ensures Lookup(ApplyAll(AtMaster, s, rs + [Client(u, Upload(f, data))]), u, f) == Some(data)
  {
    DirectoriesAtMaster(s, rs, u);
    var all := rs + [Client(u, Upload(f, data))];
    assert all[..|all| - 1] == rs;
  }

  /**
   * A file holds what the last record about it left if that record takes effect; if it does not, it was an upload
   * and there is no such file, because there is no directory for it.
   */
  lemma {:induction false} LastWriteDecides(role: Role, s: Store, u: User, rs: seq<Record>, f: Name)
    requires forall k :: 0 <= k < |rs| ==> rs[k].user == u
    requires Touched(rs, f)
    ensures LastTouchLands(role, s, u, rs, f) ==> Lookup(ApplyAll(role, s, rs), u, f) == LastWrite(rs, f)
    ensures !LastTouchLands(role, s, u, rs, f) ==>
              LastWrite(rs, f).Some? && (Housed(s) ==> Lookup(ApplyAll(role, s, rs), u, f) == None)
  {
    var before, r := rs[..|rs| - 1], rs[|rs| - 1];
    if Touches(r, f) {
      DirectoryAppears(role, s, u, before);
      if Housed(s) {
        StaysHoused(role, s, before);
      }
    } else {
      var k :| 0 <= k < |rs| && Touches(rs[k], f);
      assert Touches(before[k], f);
      LastWriteDecides(role, s, u, before, f);
    }
  }

  lemma {:induction false} UntouchedStays(role: Role, s: Store, u: User, rs: seq<Record>, f: Name)
    requires !Touched(rs, f)
    ensures Lookup(ApplyAll(role, s, rs), u, f) == Lookup(s, u, f)
  {
    if rs != [] {
      var before := rs[..|rs| - 1];
      assert forall k :: 0 <= k < |before| ==> before[k] == rs[k];
      assert !Touches(rs[|rs| - 1], f);
      UntouchedStays(role, s, u, before, f);
    }
  }

  /** After an opening record everything takes effect. */
  lemma {:induction false} OpenedFirstLands(role: Role, s: Store, u: User, rs: seq<Record>, f: Name)
    requires Touched(rs, f) && Opens(role, rs[0])
    ensures LastTouchLands(role, s, u, rs, f)
  {
    var before := rs[..|rs| - 1];
    var k :| 0 <= k < |rs| && Touches(rs[k], f);
    assert before[0] == rs[0];
    if !Touches(rs[|rs| - 1], f) {
      assert Touches(before[k], f);
      OpenedFirstLands(role, s, u, before, f);
    }
  }

  ghost predicate Suffix<T>(a: seq<T>, b: seq<T>) {
    |a| <= |b| && b[|b| - |a|..] == a
  }

  lemma {:induction false} LastWriteOfSuffix(a: seq<Record>, b: seq<Record>, f: Name)
    requires Suffix(a, b) && Touched(a, f)
    ensures LastWrite(a, f) == LastWrite(b, f) && Touched(b, f)
  {
    var k :| 0 <= k < |a| && Touches(a[k], f);
    assert b[|b| - |a| + k] == a[k];
    if !Touches(a[|a| - 1], f) {
      assert Touches(a[..|a| - 1][k], f);
      assert b[..|b| - 1][|b| - |a|..] == a[..|a| - 1];
      LastWriteOfSuffix(a[..|a| - 1], b[..|b| - 1], f);
    }
  }
}
