/** The login context: which addresses each user has logged in from, as the backups keep it for the next master. */
module Logins {
  import opened Bytes

  type Users = map<bytes, seq<bytes>>

  datatype Login = Login(user: bytes, addr: bytes)

  /** insert, or push_back when the user is there already. */
  function AddLogin(users: Users, l: Login): Users {
    users[l.user := (if l.user in users then users[l.user] else []) + [l.addr]]
  }

  function AfterLogins(log: seq<Login>): Users {
    if log == [] then map[] else AddLogin(AfterLogins(log[..|log| - 1]), log[|log| - 1])
  }

  function AddressesOf(u: bytes, log: seq<Login>): seq<bytes> {
    if log == [] then []
    else AddressesOf(u, log[..|log| - 1]) + if log[|log| - 1].user == u then [log[|log| - 1].addr] else []
  }

  /** Each user's addresses are kept in the order in which their logins arrived, and no user is made up. */
  lemma {:induction false} LoginsKeepOrder(log: seq<Login>, u: bytes)
    ensures u in AfterLogins(log) <==> AddressesOf(u, log) != []
    ensures u in AfterLogins(log) ==> AfterLogins(log)[u] == AddressesOf(u, log)
  {
    if log != [] {
      LoginsKeepOrder(log[..|log| - 1], u);
    }
  }

  ghost predicate Enumerates(order: seq<bytes>, users: Users) {
    && (forall i, j :: 0 <= i < j < |order| ==> order[i] != order[j])
    && (forall u :: u in order <==> u in users)
  }

  /** The context: the users' address lists one after the other. */
  function Context(order: seq<bytes>, users: Users): seq<bytes>
    requires forall u :: u in order ==> u in users
  {
    if order == [] then []
    else
      assert order[|order| - 1] in order;
      Context(order[..|order| - 1], users) + users[order[|order| - 1]]
  }

  lemma {:induction false} ContextSplit(a: seq<bytes>, b: seq<bytes>, users: Users)
    requires forall u :: u in a + b ==> u in users
    ensures forall u :: u in a ==> u in a + b
    ensures forall u :: u in b ==> u in a + b
    ensures Context(a + b, users) == Context(a, users) + Context(b, users)
  {
    assert forall u :: u in a ==> u in a + b;
    assert forall u :: u in b ==> u in a + b;
    if b == [] {
      assert a + b == a;
    } else {
      var m := |b| - 1;
      assert a + b[..m] == (a + b)[..|a + b| - 1];
      ContextSplit(a, b[..m], users);
    }
  }

  /** A user that is not listed does not matter. */
  lemma {:induction false} ContextFrame(order: seq<bytes>, users: Users, users': Users)
    requires forall u :: u in order ==> u in users && u in users' && users[u] == users'[u]
    ensures Context(order, users) == Context(order, users')
  {
    if order != [] {
      assert forall u :: u in order[..|order| - 1] ==> u in order;
      ContextFrame(order[..|order| - 1], users, users');
    }
  }

  function Addresses(log: seq<Login>): seq<bytes> {
    if log == [] then [] else Addresses(log[..|log| - 1]) + [log[|log| - 1].addr]
  }

  lemma ContextAround(a: seq<bytes>, u: bytes, b: seq<bytes>, users: Users)
    requires forall x :: x in a + [u] + b ==> x in users
    ensures forall x :: x in a ==> x in users
    ensures forall x :: x in b ==> x in users
    ensures u in users
    ensures Context(a + [u] + b, users) == Context(a, users) + users[u] + Context(b, users)
  {
    assert u in a + [u] + b;
    assert forall x :: x in a ==> x in a + [u] + b;
    assert forall x :: x in b ==> x in a + [u] + b;
    ContextSplit(a + [u], b, users);
    ContextSplit(a, [u], users);
    assert Context([u], users) == Context([], users) + users[u] == users[u];
  }

  /** Taking one element out of a list without repetitions takes out that element and no other. */
  lemma RemoveAt(s: seq<bytes>, i: nat, rest: seq<bytes>)
    requires i < |s| && rest == s[..i] + s[i + 1..]
    requires forall j, k :: 0 <= j < k < |s| ==> s[j] != s[k]
    ensures forall j, k :: 0 <= j < k < |rest| ==> rest[j] != rest[k]
    ensures forall x :: x in rest <==> x in s && x != s[i]
  {
    assert forall k :: 0 <= k < |rest| ==> rest[k] == s[if k < i then k else k + 1];
    forall x | x in s && x != s[i]
      ensures x in rest
    {
      var j :| 0 <= j < |s| && s[j] == x;
      assert rest[if j < i then j else j - 1] == x;
    }
  }

  lemma SplitAround(order: seq<bytes>, users: Users, u: bytes) returns (a: seq<bytes>, b: seq<bytes>)
    requires Enumerates(order, users) && u in users
    ensures order == a + [u] + b
    ensures Enumerates(a + b, users - {u})
  {
    assert u in order;
    var i :| 0 <= i < |order| && order[i] == u;
    a, b := order[..i], order[i + 1..];
    RemoveAt(order, i, a + b);
  }

  /** Replacing one user's addresses replaces them in the context and changes nothing else of it. */
  lemma ContextAt(a: seq<bytes>, u: bytes, b: seq<bytes>, users: Users, rest: Users)
    requires u in users && rest == users - {u} && Enumerates(a + b, rest)
    ensures forall x :: x in a + [u] + b ==> x in users
    ensures forall x :: x in a + b ==> x in rest
    ensures multiset(Context(a + [u] + b, users)) == multiset(Context(a + b, rest)) + multiset(users[u])
  {
    assert forall x :: x in a || x in b ==> x in a + b;
    ContextAround(a, u, b, users);
    ContextSplit(a, b, rest);
    ContextFrame(a, users, rest);
    ContextFrame(b, users, rest);
  }

  /** One more login adds one entry to the context, in whatever order the users are gone through. */
  lemma OneMoreEntry(users: Users, l: Login, order: seq<bytes>) returns (order': seq<bytes>)
    requires Enumerates(order, AddLogin(users, l))
    ensures Enumerates(order', users)
    ensures multiset(Context(order, AddLogin(users, l))) == multiset(Context(order', users)) + multiset{l.addr}
  {
    var users' := AddLogin(users, l);
    var a, b := SplitAround(order, users', l.user);
    assert users' - {l.user} == users - {l.user};
    ContextAt(a, l.user, b, users', users - {l.user});
    if l.user in users {
      order' := order;
      ContextAt(a, l.user, b, users, users - {l.user});
    } else {
      order' := a + b;
      assert users - {l.user} == users;
    }
  }

  /**
   * The context the next master goes through holds exactly one entry per login record, address by address, in
   * whatever order the users come: it sends as many handshakes as there were logins.
   */
  lemma {:induction false} ContextConserved(log: seq<Login>, order: seq<bytes>)
    requires Enumerates(order, AfterLogins(log))
    ensures multiset(Context(order, AfterLogins(log))) == multiset(Addresses(log))
    ensures |Context(order, AfterLogins(log))| == |log|
  {
    if log == [] {
      NobodyListed(order);
    } else {
      var order' := OneMoreEntry(AfterLogins(log[..|log| - 1]), log[|log| - 1], order);
      ContextConserved(log[..|log| - 1], order');
    }
    assert |multiset(Context(order, AfterLogins(log)))| == |Addresses(log)|;
    AddressCount(log);
  }

  lemma FirstIsListed(order: seq<bytes>)
    ensures order != [] ==> exists u :: u in order
  {
    assert order != [] ==> order[0] in order;
  }

  lemma NobodyListed(order: seq<bytes>)
    requires Enumerates(order, map[])
    ensures order == []
  {
    if order != [] {
      FirstIsListed(order);
      assert false;
    }
  }

  lemma {:induction false} AddressCount(log: seq<Login>)
    ensures |Addresses(log)| == |log|
  {
    if log != [] {
      AddressCount(log[..|log| - 1]);
    }
  }
}
