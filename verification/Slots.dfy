/** The connection slots of one user (commons/user/user.cpp) and the loops over them (manager.cpp). */
module Slots {
  /** Slot contents: a socket descriptor, or 0 for a free slot. */
  function Active(fds: seq<int>): seq<int> {
    if fds == [] then []
    else Active(fds[..|fds| - 1]) + if fds[|fds| - 1] != 0 then [fds[|fds| - 1]] else []
  }

  /** The first k slots are taken and no other. */
  ghost predicate ActivePrefix(fds: seq<int>, k: nat) {
    k <= |fds| && (forall i :: 0 <= i < k ==> fds[i] != 0) && (forall i :: k <= i < |fds| ==> fds[i] == 0)
  }

  /** The descriptors of `fds` a broadcast is meant for. */
  function Except(fds: seq<int>, except: int): seq<int> {
    if fds == [] then []
    else Except(fds[..|fds| - 1], except) + if fds[|fds| - 1] != except then [fds[|fds| - 1]] else []
  }

  /** Where `fd` first occurs, or |fds|. */
  function IndexOf(fds: seq<int>, fd: int): (k: nat)
    ensures k <= |fds|
    ensures k < |fds| ==> fds[k] == fd
    ensures forall i :: 0 <= i < k ==> fds[i] != fd
  {
    if fds == [] then 0
    else
      var k := IndexOf(fds[..|fds| - 1], fd);
      if k < |fds| - 1 then k else if fds[|fds| - 1] == fd then |fds| - 1 else |fds|
  }

  /** Slot k is the first to hold `fd`. */
  ghost predicate FirstAt(fds: seq<int>, fd: int, k: int) {
    0 <= k < |fds| && fds[k] == fd && forall i :: 0 <= i < k ==> fds[i] != fd
  }

  function Replace(fds: seq<int>, from: int, to: int): (r: seq<int>)
    ensures |r| == |fds|
  {
    var k := IndexOf(fds, from);
    if k < |fds| then fds[k := to] else fds
  }

  class User {
    const connections: array<int>

    constructor (maxConnections: nat)
      ensures fresh(connections) && connections.Length == maxConnections
      ensures forall i :: 0 <= i < maxConnections ==> connections[i] == 0
    {
      connections := new int[maxConnections](_ => 0);
    }

    /** The first free slot takes the connection. */
    method PushConnection(fd: int) returns (err: int)
      modifies connections
      ensures connections[..] == Replace(old(connections[..]), 0, fd)
      ensures err == if 0 in old(connections[..]) then 0 else -1
      ensures forall k :: FirstAt(old(connections[..]), 0, k) ==> connections[..] == old(connections[..])[k := fd]
      ensures err != 0 ==> connections[..] == old(connections[..])
    {
      for i := 0 to connections.Length
        invariant connections[..] == old(connections[..])
        invariant forall j :: 0 <= j < i ==> connections[j] != 0
      {
        if connections[i] == 0 {
          IndexOfFirst(connections[..], 0, i);
          connections[i] := fd;
          assert connections[..] == old(connections[..])[i := fd];
          return 0;
        }
      }
      return -1;
    }

    /** The first slot with that descriptor is freed. */
    method Disconnect(fd: int) returns (err: int)
      modifies connections
      ensures connections[..] == Replace(old(connections[..]), fd, 0)
      ensures err == if fd in old(connections[..]) then 0 else -1
      ensures forall k :: FirstAt(old(connections[..]), fd, k) ==> connections[..] == old(connections[..])[k := 0]
      ensures err != 0 ==> connections[..] == old(connections[..])
    {
      for i := 0 to connections.Length
        invariant connections[..] == old(connections[..])
        invariant forall j :: 0 <= j < i ==> connections[j] != fd
      {
        if connections[i] == fd {
          IndexOfFirst(connections[..], fd, i);
          connections[i] := 0;
          assert connections[..] == old(connections[..])[i := 0];
          return 0;
        }
      }
      return -1;
    }

    method GetActiveConnectionsCount() returns (count: nat)
      ensures count == |Active(connections[..])|
    {
      count := 0;
      for i := 0 to connections.Length
        invariant count == |Active(connections[..i])|
      {
        assert connections[..i + 1][..i] == connections[..i];
        if connections[i] != 0 {
          count := count + 1;
        }
      }
      assert connections[..connections.Length] == connections[..];
    }

    /**
     * One round of the dispatching thread over this user: an idle connection among the first `count` slots gets a
     * handler, which is_waiting marks.  The count does not change meanwhile.
     */
    method Dispatch(waiting: array<bool>) returns (started: seq<nat>)
      requires waiting.Length == connections.Length
      modifies waiting
      ensures forall i :: 0 <= i < waiting.Length ==>
                            (waiting[i] <==> old(waiting[i]) || (i < |Active(connections[..])| && connections[i] > 0))
      ensures forall i: nat :: i in started <==> i < waiting.Length && waiting[i] && !old(waiting[i])
      ensures forall j, k :: 0 <= j < k < |started| ==> started[j] < started[k]
    {
      started := [];
      var count := GetActiveConnectionsCount();
      ActiveIsShorter(connections[..]);
      for i := 0 to count
        invariant forall j :: i <= j < waiting.Length ==> waiting[j] == old(waiting[j])
        invariant forall j :: 0 <= j < i ==> (waiting[j] <==> old(waiting[j]) || connections[j] > 0)
        invariant forall j: nat :: j in started <==> j < i && waiting[j] && !old(waiting[j])
        invariant forall j, k :: 0 <= j < k < |started| ==> started[j] < started[k]
      {
        if connections[i] > 0 && !waiting[i] {
          assert forall j :: 0 <= j < |started| ==> started[j] in started;
          waiting[i] := true;
          started := started + [i];
        }
      }
    }

    /** broadcast_to_user: the descriptors written to, over the first `count` slots. */
    method Broadcast(except: int) returns (written: seq<int>)
      ensures written == Except(connections[..][..CountAtMost(connections[..])], except)
      ensures forall fd :: fd in written <==>
                             fd != except && exists i :: 0 <= i < connections.Length && i < |Active(connections[..])|
                                                         && connections[i] == fd
    {
      ExceptMembers(connections[..][..CountAtMost(connections[..])], except);
      var count := GetActiveConnectionsCount();
      ActiveIsShorter(connections[..]);
      written := [];
      for i := 0 to count
        invariant written == Except(connections[..][..i], except)
      {
        assert connections[..][..i + 1][..i] == connections[..][..i];
        if connections[i] != except {
          written := written + [connections[i]];
        }
      }
    }

    /** close_all_connections: the bound of the loop is counted again each time round. */
    method CloseAll()
      modifies connections
      ensures connections[..] == Closed(old(connections[..]), 0)
      ensures var fds := old(connections[..]);
              NonNegative(fds) ==>
                forall j :: 0 <= j < |fds| ==> connections[j] == if ClosedAt(fds, j) then 0 else fds[j]
    {
      var i := 0;
      var count := GetActiveConnectionsCount();
      ActiveIsShorter(connections[..]);
      while i < count
        invariant 0 <= i && count == |Active(connections[..])| <= connections.Length
        invariant Closed(connections[..], i) == Closed(old(connections[..]), 0)
        decreases connections.Length - i
      {
        ghost var before := connections[..];
        if connections[i] > 0 {
          connections[i] := 0;
        }
        assert connections[..] == if before[i] > 0 then before[i := 0] else before;
        i := i + 1;
        count := GetActiveConnectionsCount();
        ActiveIsShorter(connections[..]);
      }
      if NonNegative(old(connections[..])) {
        ClosedExactly(old(connections[..]));
      }
    }
  }

  function CountAtMost(fds: seq<int>): (n: nat)
    ensures n == |Active(fds)| <= |fds|
  {
    ActiveIsShorter(fds);
    |Active(fds)|
  }

  /** The dispatching loop gets as far as slot i and finds a connection there. */
  predicate Dispatched(fds: seq<int>, i: nat)
    requires i < |fds|
  {
    i < CountAtMost(fds) && fds[i] > 0
  }

  /** The slots once the closing loop, now at slot i, is through. */
  function Closed(fds: seq<int>, i: nat): seq<int>
    decreases |fds| - i
  {
    ActiveIsShorter(fds);
    if i >= |Active(fds)| then fds
    else Closed(if fds[i] > 0 then fds[i := 0] else fds, i + 1)
  }

  lemma {:induction false} ActiveIsShorter(fds: seq<int>)
    ensures |Active(fds)| <= |fds|
  {
    if fds != [] {
      ActiveIsShorter(fds[..|fds| - 1]);
    }
  }

  lemma {:induction false} IndexOfFirst(fds: seq<int>, fd: int, k: nat)
    requires k < |fds| && fds[k] == fd && forall i :: 0 <= i < k ==> fds[i] != fd
    ensures IndexOf(fds, fd) == k
  {
  }

  // ------------------------------------------------------------------ runs of pushes

  function Pushes(capacity: nat, fds: seq<int>): (slots: seq<int>)
    ensures |slots| == capacity
  {
    if fds == [] then seq(capacity, _ => 0)
    else Replace(Pushes(capacity, fds[..|fds| - 1]), 0, fds[|fds| - 1])
  }

  lemma {:induction false} ActiveOfPrefix(fds: seq<int>, k: nat)
    requires ActivePrefix(fds, k)
    ensures Active(fds) == fds[..k]
  {
    if fds != [] {
      var m := |fds| - 1;
      ActiveOfPrefix(fds[..m], if k <= m then k else m);
      if k <= m {
        assert fds[..m][..k] == fds[..k];
      } else {
        assert fds[..m] + [fds[m]] == fds;
      }
    }
  }

  /** Pushing connections one after another fills the slots from the front, keeps the order, and stops when full. */
  lemma {:induction false} PushesFillFromFront(capacity: nat, fds: seq<int>)
    requires forall i :: 0 <= i < |fds| ==> fds[i] != 0
    ensures var k := if |fds| <= capacity then |fds| else capacity;
            var slots := Pushes(capacity, fds);
            ActivePrefix(slots, k) && slots[..k] == fds[..k] && |Active(slots)| == k
  {
    var k := if |fds| <= capacity then |fds| else capacity;
    var slots := Pushes(capacity, fds);
    if fds != [] {
      var before := Pushes(capacity, fds[..|fds| - 1]);
      PushesFillFromFront(capacity, fds[..|fds| - 1]);
      if |fds| <= capacity {
        IndexOfFirst(before, 0, |fds| - 1);
        assert before[..|fds| - 1] == fds[..|fds| - 1][..|fds| - 1];
        forall i | 0 <= i < k
          ensures slots[i] == fds[i]
        {
          if i < |fds| - 1 { assert before[..|fds| - 1][i] == fds[i]; }
        }
      } else {
        assert slots == before;
        assert fds[..|fds| - 1][..k] == fds[..k];
      }
    }
    ActiveOfPrefix(slots, k);
  }

  // ------------------------------------------------------------------ broadcasts

  lemma {:induction false} ExceptOfActive(fds: seq<int>, except: int)
    requires forall i :: 0 <= i < |fds| ==> fds[i] != 0
    ensures Active(fds) == fds
    ensures 0 !in Except(fds, except)
  {
    if fds != [] {
      ExceptOfActive(fds[..|fds| - 1], except);
      assert fds == fds[..|fds| - 1] + [fds[|fds| - 1]];
    }
  }

  lemma {:induction false} ActiveHasNoZero(fds: seq<int>)
    ensures forall i :: 0 <= i < |Active(fds)| ==> Active(fds)[i] != 0
  {
    if fds != [] {
      ActiveHasNoZero(fds[..|fds| - 1]);
    }
  }

  lemma {:induction false} ZeroIsWritten(fds: seq<int>, except: int, i: nat)
    requires i < |fds| && fds[i] == 0 && except != 0
    ensures 0 in Except(fds, except)
  {
    if i < |fds| - 1 {
      ZeroIsWritten(fds[..|fds| - 1], except, i);
    }
  }

  lemma {:induction false} AllCountedInPrefix(fds: seq<int>, n: nat)
    requires n <= |fds| && (forall i :: 0 <= i < n ==> fds[i] != 0) && |Active(fds)| == n
    ensures ActivePrefix(fds, n)
  {
    if |fds| > n {
      var m := |fds| - 1;
      ActiveAtLeast(fds[..m], n);
      AllCountedInPrefix(fds[..m], n);
      assert forall i :: 0 <= i < m ==> fds[i] == fds[..m][i];
    }
  }

  lemma {:induction false} ActiveAtLeast(fds: seq<int>, n: nat)
    requires n <= |fds| && forall i :: 0 <= i < n ==> fds[i] != 0
    ensures |Active(fds)| >= n
  {
    if fds != [] && n > 0 {
      ActiveAtLeast(fds[..|fds| - 1], if n < |fds| then n else n - 1);
    }
  }

  /**
   * A broadcast writes to every active connection but the excluded one, each once and in slot order, and to nothing
   * else, if and only if the active slots have no free slot before them.
   */
  lemma BroadcastReachesAllIffPrefix(fds: seq<int>, except: int)
    requires except != 0
    ensures Except(fds[..CountAtMost(fds)], except) == Except(Active(fds), except)
            <==> ActivePrefix(fds, |Active(fds)|)
  {
    var n := CountAtMost(fds);
    ActiveHasNoZero(fds);
    ExceptOfActive(Active(fds), except);
    if forall i :: 0 <= i < n ==> fds[i] != 0 {
      AllCountedInPrefix(fds, n);
      ActiveOfPrefix(fds, n);
    } else {
      var i :| 0 <= i < n && fds[i] == 0;
      ZeroIsWritten(fds[..n], except, i);
    }
  }

  /** A connection at or beyond the count never gets a handler: all get one if and only if the slots have no gap. */
  lemma DispatchReachesAllIffPrefix(fds: seq<int>)
    requires NonNegative(fds)
    ensures (forall i :: 0 <= i < |fds| && fds[i] != 0 ==> Dispatched(fds, i)) <==> ActivePrefix(fds, |Active(fds)|)
  {
    var n := CountAtMost(fds);
    if forall i :: 0 <= i < |fds| && fds[i] != 0 ==> Dispatched(fds, i) {
      NothingBehind(fds, n);
    }
  }

  /** If all active slots are among the first n, they are counted there. */
  lemma {:induction false} NothingBehind(fds: seq<int>, n: nat)
    requires |Active(fds)| == n <= |fds| && forall i :: n <= i < |fds| ==> fds[i] == 0
    ensures ActivePrefix(fds, n)
  {
    if |fds| > n {
      NothingBehind(fds[..|fds| - 1], n);
      assert forall i :: 0 <= i < n ==> fds[i] == fds[..|fds| - 1][i];
    } else {
      AllTaken(fds);
    }
  }

  lemma {:induction false} AllTaken(fds: seq<int>)
    requires |Active(fds)| == |fds|
    ensures forall i :: 0 <= i < |fds| ==> fds[i] != 0
  {
    if fds != [] {
      ActiveIsShorter(fds[..|fds| - 1]);
      AllTaken(fds[..|fds| - 1]);
      assert forall i :: 0 <= i < |fds| - 1 ==> fds[i] == fds[..|fds| - 1][i];
    }
  }

  // ------------------------------------------------------------------ filters

  lemma {:induction false} ExceptMembers(fds: seq<int>, except: int)
    ensures forall fd :: fd in Except(fds, except) <==> fd != except && fd in fds
  {
    if fds != [] {
      ExceptMembers(fds[..|fds| - 1], except);
      assert fds == fds[..|fds| - 1] + [fds[|fds| - 1]];
    }
  }

  /** The slots whose descriptor is not excluded. */
  function KeptSlots(fds: seq<int>, except: int): (at: seq<nat>)
    ensures forall k :: 0 <= k < |at| ==> at[k] < |fds|
  {
    if fds == [] then []
    else
      KeptSlots(fds[..|fds| - 1], except) + if fds[|fds| - 1] != except then [|fds| - 1] else []
  }

  lemma {:induction false} KeptSlotsAre(fds: seq<int>, except: int)
    ensures forall j, k :: 0 <= j < k < |KeptSlots(fds, except)| ==>
                             KeptSlots(fds, except)[j] < KeptSlots(fds, except)[k]
    ensures forall i: nat :: i in KeptSlots(fds, except) <==> i < |fds| && fds[i] != except
  {
    if fds != [] {
      KeptSlotsAre(fds[..|fds| - 1], except);
    }
  }

  /** What is left out is exactly the excluded descriptor; everything else is kept, slot by slot and in order. */
  lemma {:induction false} ExceptIsFilter(fds: seq<int>, except: int)
    ensures |Except(fds, except)| == |KeptSlots(fds, except)|
    ensures forall k :: 0 <= k < |KeptSlots(fds, except)| ==>
                          Except(fds, except)[k] == fds[KeptSlots(fds, except)[k]]
  {
    if fds != [] {
      ExceptIsFilter(fds[..|fds| - 1], except);
    }
  }

  lemma {:induction false} ActiveIsExceptZero(fds: seq<int>)
    ensures Active(fds) == Except(fds, 0)
  {
    if fds != [] {
      ActiveIsExceptZero(fds[..|fds| - 1]);
    }
  }

  lemma {:induction false} ActiveSplit(a: seq<int>, b: seq<int>)
    ensures Active(a + b) == Active(a) + Active(b)
  {
    if b == [] {
      assert a + b == a;
    } else {
      assert (a + b)[..|a + b| - 1] == a + b[..|b| - 1];
      ActiveSplit(a, b[..|b| - 1]);
    }
  }

  // ------------------------------------------------------------------ closing

  predicate NonNegative(fds: seq<int>) {
    forall j :: 0 <= j < |fds| ==> fds[j] >= 0
  }

  lemma {:induction false} NoneActive(fds: seq<int>)
    ensures Active(fds) == [] <==> forall j :: 0 <= j < |fds| ==> fds[j] == 0
  {
    if fds != [] {
      NoneActive(fds[..|fds| - 1]);
      assert forall j :: 0 <= j < |fds| - 1 ==> fds[j] == fds[..|fds| - 1][j];
    }
  }

  /** The number of connections from slot i on, up to slot j. */
  function Between(fds: seq<int>, i: nat, j: nat): nat
    requires i <= j <= |fds|
  {
    |Active(fds[i..j])|
  }

  lemma BetweenStep(fds: seq<int>, i: nat, j: nat)
    requires i < j <= |fds|
    ensures Between(fds, i, j) == (if fds[i] != 0 then 1 else 0) + Between(fds, i + 1, j)
    ensures Between(fds[i := 0], i + 1, j) == Between(fds, i + 1, j)
  {
    assert fds[i..j] == [fds[i]] + fds[i + 1..j];
    ActiveSplit([fds[i]], fds[i + 1..j]);
    assert [fds[i]][..0] == [];
    assert fds[i := 0][i + 1..j] == fds[i + 1..j];
  }

  lemma ClearingOne(fds: seq<int>, i: nat)
    requires i < |fds| && fds[i] != 0
    ensures |Active(fds[i := 0])| == |Active(fds)| - 1
  {
    var gone := fds[i := 0];
    assert fds == fds[..i] + fds[i..] && gone == gone[..i] + gone[i..] && gone[..i] == fds[..i];
    ActiveSplit(fds[..i], fds[i..]);
    ActiveSplit(gone[..i], gone[i..]);
    BetweenStep(fds, i, |fds|);
    BetweenStep(gone, i, |fds|);
    assert fds[i..] == fds[i..|fds|] && gone[i..] == gone[i..|fds|];
    assert gone[i := 0] == gone;
  }

  /** From slot i on, slot j is closed if it is in use and the count has not fallen to j when the loop gets there. */
  predicate ClosedFrom(fds: seq<int>, i: nat, j: nat)
    requires i <= j < |fds|
  {
    fds[j] > 0 && j + Between(fds, i, j) < |Active(fds)|
  }

  function CloseSlot(fds: seq<int>, i: nat): seq<int>
    requires i < |fds|
  {
    if fds[i] > 0 then fds[i := 0] else fds
  }

  lemma OneRound(fds: seq<int>, i: nat, j: nat)
    requires NonNegative(fds) && i < j < |fds|
    ensures ClosedFrom(CloseSlot(fds, i), i + 1, j) <==> ClosedFrom(fds, i, j)
  {
    BetweenStep(fds, i, j);
    if fds[i] > 0 {
      ClearingOne(fds, i);
    }
  }

  lemma {:induction false} WhatIsClosed(fds: seq<int>, i: nat)
    requires NonNegative(fds) && i <= |fds|
    ensures |Closed(fds, i)| == |fds|
    ensures forall j :: 0 <= j < |fds| ==>
                          Closed(fds, i)[j] == if i <= j && ClosedFrom(fds, i, j) then 0 else fds[j]
    decreases |fds| - i
  {
    ActiveIsShorter(fds);
    if i < |Active(fds)| {
      var next := CloseSlot(fds, i);
      assert Closed(fds, i) == Closed(next, i + 1);
      WhatIsClosed(next, i + 1);
      assert fds[i..i] == [];
      forall j | i < j < |fds|
        ensures ClosedFrom(next, i + 1, j) <==> ClosedFrom(fds, i, j)
      {
        OneRound(fds, i, j);
      }
    }
  }

  /** Slot j is in use, and with the connections before it gone there are still more than j. */
  predicate ClosedAt(fds: seq<int>, j: nat)
    requires j < |fds|
  {
    fds[j] > 0 && j + |Active(fds[..j])| < |Active(fds)|
  }

  /** Which slots the closing loop closes, for every table. */
  lemma ClosedExactly(fds: seq<int>)
    requires NonNegative(fds)
    ensures |Closed(fds, 0)| == |fds|
    ensures forall j :: 0 <= j < |fds| ==> Closed(fds, 0)[j] == if ClosedAt(fds, j) then 0 else fds[j]
  {
    WhatIsClosed(fds, 0);
    assert forall j :: 0 <= j < |fds| ==> fds[0..j] == fds[..j];
  }

  lemma {:induction false} LastActive(fds: seq<int>) returns (last: nat)
    requires Active(fds) != []
    ensures last < |fds| && fds[last] != 0 && |Active(fds[..last])| == |Active(fds)| - 1
    ensures |Active(fds)| == 1 ==> forall j :: 0 <= j < |fds| && j != last ==> fds[j] == 0
  {
    var m := |fds| - 1;
    if fds[m] != 0 {
      last := m;
      NoneActive(fds[..m]);
      assert forall j :: 0 <= j < m ==> fds[j] == fds[..m][j];
    } else {
      last := LastActive(fds[..m]);
      assert fds[..m][..last] == fds[..last];
      assert forall j :: 0 <= j < m ==> fds[j] == fds[..m][j];
    }
  }

  /**
   * For every table of slots: the closing loop closes all connections if and only if there are none, or just one and
   * it is in the first slot.
   */
  lemma CloseAllClosesAllIff(fds: seq<int>)
    requires NonNegative(fds)
    ensures (forall j :: 0 <= j < |Closed(fds, 0)| ==> Closed(fds, 0)[j] == 0)
            <==> Active(fds) == [] || (|Active(fds)| == 1 && fds[0] != 0)
  {
    ClosedExactly(fds);
    NoneActive(fds);
    ActiveIsShorter(fds);
    if Active(fds) != [] {
      var last := LastActive(fds);
      assert ClosedAt(fds, last) <==> last == 0;
      assert fds[..0] == [];
    }
  }

  /** Of k connections in the first k slots the closing loop closes the first half, rounded up. */
  lemma CloseAllClosesHalf(fds: seq<int>, k: nat)
    requires ActivePrefix(fds, k) && NonNegative(fds)
    ensures |Closed(fds, 0)| == |fds|
    ensures forall j :: 0 <= j < |fds| ==> Closed(fds, 0)[j] == if j < (k + 1) / 2 then 0 else fds[j]
  {
    ClosedExactly(fds);
    ActiveOfPrefix(fds, k);
    forall j | 0 <= j < k
      ensures |Active(fds[..j])| == j
    {
      ActiveOfPrefix(fds[..j], j);
    }
  }

  // ------------------------------------------------------------------ runs of logins and logouts

  datatype Change = Push(fd: int) | Drop(fd: int)

  /** The slots after a run of pushes and disconnects. */
  function After(capacity: nat, changes: seq<Change>): (slots: seq<int>)
    ensures |slots| == capacity
  {
    if changes == [] then seq(capacity, _ => 0)
    else
      var before := After(capacity, changes[..|changes| - 1]);
      match changes[|changes| - 1]
      case Push(fd) => Replace(before, 0, fd)
      case Drop(fd) => Replace(before, fd, 0)
  }

  lemma TwoPushesAndADrop(capacity: nat, first: int, second: int)
    requires capacity >= 2 && first != 0 && second != 0 && first != second
    ensures After(capacity, [Push(first), Push(second), Drop(first)]) == seq(capacity, _ => 0)[1 := second]
  {
    var empty: seq<int> := seq(capacity, _ => 0);
    var one, two, gap := empty[0 := first], empty[0 := first][1 := second], empty[1 := second];
    var p, q, r := [Push(first)], [Push(first), Push(second)], [Push(first), Push(second), Drop(first)];
    assert p[..0] == [] && q[..1] == p && r[..2] == q;
    IndexOfFirst(empty, 0, 0);
    IndexOfFirst(one, 0, 1);
    IndexOfFirst(two, first, 0);
    assert two[0 := 0] == gap;
    assert After(capacity, p) == Replace(After(capacity, []), 0, first) == one;
    assert After(capacity, q) == Replace(After(capacity, p), 0, second) == two;
    assert After(capacity, r) == Replace(After(capacity, q), first, 0) == gap;
  }

  /** A single connection, in the second slot. */
  lemma GapIsPassedOver(slots: seq<int>, fd: int)
    requires |slots| >= 2 && slots[1] == fd > 0 && forall i :: 0 <= i < |slots| && i != 1 ==> slots[i] == 0
    ensures NonNegative(slots) && Active(slots) == [fd]
    ensures Except(slots[..CountAtMost(slots)], -1) == [0] && !Dispatched(slots, 1) && Closed(slots, 0) == slots
  {
    ActiveInOrder(slots, fd);
    assert slots[..1] == [0] && [0][..0] == [];
    assert Closed(slots, 0) == Closed(slots, 1) == slots;
  }

  lemma {:induction false} ActiveInOrder(fds: seq<int>, fd: int)
    requires |fds| >= 2 && fds[1] == fd != 0 && forall i :: 0 <= i < |fds| && i != 1 ==> fds[i] == 0
    ensures Active(fds) == [fd]
  {
    var m := |fds| - 1;
    if m > 1 {
      ActiveInOrder(fds[..m], fd);
    } else {
      NoneActive(fds[..1]);
    }
  }

  /**
   * Tables with a gap are real: after two logins and the logout of the first, the connection that is left is neither
   * written to by a broadcast nor given a handler nor closed.
   */
  lemma GapAfterLogout(capacity: nat, first: int, second: int)
    requires capacity >= 2 && 0 < first && 0 < second && first != second
    ensures var slots := After(capacity, [Push(first), Push(second), Drop(first)]);
            && NonNegative(slots) && Active(slots) == [second] && slots[1] == second
            && Except(slots[..CountAtMost(slots)], -1) == [0]
            && !Dispatched(slots, 1)
            && Closed(slots, 0) == slots
  {
    TwoPushesAndADrop(capacity, first, second);
    GapIsPassedOver(After(capacity, [Push(first), Push(second), Drop(first)]), second);
  }
}
