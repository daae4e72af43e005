/** Who is served: each call of the TCP server visits the first `num` slots of the table only, so a
    connection in a later slot, or in none, is not read from or written to. */
module ConnectionService {
  import opened ConnectionTable

  /** An open connection that is in none of the first n slots. */
  ghost predicate Beyond(t: Table, n: int, fd: int) {
    fd in t.open && forall j :: 0 <= j < n && j < |t.alive| ==> t.alive[j] != fd
  }

  ghost predicate Unserved(t: Table, fd: int) {
    Beyond(t, t.num, fd)
  }

  // ----- unserved once, unserved forever

  lemma AcceptKeepsUnserved(t: Table, sockfd: int, fd: int, new_: int)
    requires Inv(t, sockfd) && FreshFd(t, sockfd, new_) && Unserved(t, fd)
    ensures Unserved(AcceptOn(t, new_), fd) && AcceptOn(t, new_).num >= t.num
  {
  }

  lemma {:induction false} SlotsKeepBeyond(m: Mode, e: Env, selR: set<int>, selW: set<int>, t: Table, n: nat,
                                           sockfd: int, top: int, fd: int)
    requires Inv(t, sockfd) && n <= UART_TCP_CLIENT_MAX && 0 !in selR && 0 !in selW
    requires Beyond(t, top, fd) && n <= top
    ensures Beyond(SlotsUpTo(m, e, selR, selW, t, n), top, fd) && SlotsUpTo(m, e, selR, selW, t, n).num <= t.num
  {
    if n > 0 {
      SlotsKeepInv(m, e, selR, selW, t, n - 1, sockfd);
      SlotsKeepBeyond(m, e, selR, selW, t, n - 1, sockfd, top, fd);
    }
  }

  /** The table that a call finds when it comes to slot j. */
  function AtSlot(m: Mode, e: Env, t: Table, sockfd: int, j: nat): Table
    requires |t.alive| == UART_TCP_CLIENT_MAX && j <= UART_TCP_CLIENT_MAX
  {
    var t1, t2 := AcceptOn(t, e.fd1), Admitted(m, e, t, sockfd);
    SlotsUpTo(m, e, e.readyR * t1.readSet, e.readyW * t1.writeSet, t2, j)
  }

  lemma AtSlotBeyond(m: Mode, e: Env, t: Table, sockfd: int, fd: int, j: nat)
    requires Inv(t, sockfd) && FreshEnv(e, t, sockfd) && Unserved(t, fd) && j <= AcceptOn(t, e.fd1).num
    ensures Inv(AcceptOn(t, e.fd1), sockfd) && Unserved(AcceptOn(t, e.fd1), fd)
    ensures j <= UART_TCP_CLIENT_MAX
    ensures var r, top := AtSlot(m, e, t, sockfd, j), Admitted(m, e, t, sockfd).num;
            Beyond(r, top, fd) && r.num <= top && AcceptOn(t, e.fd1).num <= top <= |r.alive|
  {
    var t1, t2 := AcceptOn(t, e.fd1), Admitted(m, e, t, sockfd);
    AdmittedKeepsInv(m, e, t, sockfd);
    AcceptKeepsUnserved(t, sockfd, fd, e.fd1);
    AcceptKeepsUnserved(t1, sockfd, fd, e.fd2);
    SlotsKeepBeyond(m, e, e.readyR * t1.readSet, e.readyW * t1.writeSet, t2, j, sockfd, t2.num, fd);
  }

  /** A call does not come to an unserved connection, and leaves it open and unserved. */
  lemma RoundKeepsUnserved(m: Mode, e: Env, t: Table, sockfd: int, fd: int)
    requires Inv(t, sockfd) && FreshEnv(e, t, sockfd) && Unserved(t, fd)
    ensures Unserved(Round(m, e, t, sockfd), fd)
    ensures forall j :: 0 <= j < AcceptOn(t, e.fd1).num <= UART_TCP_CLIENT_MAX ==>
              AtSlot(m, e, t, sockfd, j).alive[j] != fd
  {
    var n := AcceptOn(t, e.fd1).num;
    AtSlotBeyond(m, e, t, sockfd, fd, 0);
    AtSlotBeyond(m, e, t, sockfd, fd, n);
    forall j | 0 <= j < n
      ensures AtSlot(m, e, t, sockfd, j).alive[j] != fd
    {
      AtSlotBeyond(m, e, t, sockfd, fd, j);
    }
  }

  /** Over every run: an unserved connection is never read from, written to or closed again. */
  lemma {:induction false} UnservedForever(calls: seq<Call>, t: Table, sockfd: int, fd: int)
    requires Inv(t, sockfd) && FreshRun(calls, t, sockfd) && Unserved(t, fd)
    ensures Unserved(Exec(calls, t, sockfd), fd)
  {
    if calls != [] {
      var n := |calls| - 1;
      FreshPrefix(calls, t, sockfd);
      UnservedForever(calls[..n], t, sockfd, fd);
      RunsKeepInv(calls[..n], t, sockfd);
      RoundKeepsUnserved(calls[n].m, calls[n].e, Exec(calls[..n], t, sockfd), sockfd, fd);
    }
  }

  // ----- everybody is served exactly in a packed table

  /** The descriptors in the first n slots. */
  function Firsts(alive: seq<int>, n: nat): set<int>
    requires n <= |alive|
  {
    set i | 0 <= i < n && alive[i] != 0 :: alive[i]
  }

  lemma {:induction false} FirstsAreFew(alive: seq<int>, n: nat)
    requires n <= |alive|
    ensures |Firsts(alive, n)| <= n
    ensures |Firsts(alive, n)| == n ==> forall i :: 0 <= i < n ==> alive[i] != 0
  {
    if n > 0 {
      FirstsAreFew(alive, n - 1);
      assert Firsts(alive, n) == Firsts(alive, n - 1) + if alive[n - 1] != 0 then {alive[n - 1]} else {};
    } else {
      assert Firsts(alive, n) == {};
    }
  }

  lemma AllServedPacks(t: Table, sockfd: int)
    requires Inv(t, sockfd) && forall fd :: fd in t.open ==> !Unserved(t, fd)
    ensures Packed(t)
  {
    var firsts := Firsts(t.alive, t.num);
    forall fd | fd in t.open
      ensures fd in firsts
    {
      assert !Unserved(t, fd);
    }
    SubsetSize(t.open, firsts);
    FirstsAreFew(t.alive, t.num);
    forall i | t.num <= i < |t.alive|
      ensures t.alive[i] == 0
    {
      assert t.alive[i] == 0 || t.alive[i] in Occupied(t);
      LaterIsFree(t.alive, t.num, i);
    }
  }

  lemma LaterIsFree(alive: seq<int>, n: nat, i: nat)
    requires DistinctSlots(alive) && n <= i < |alive|
    requires alive[i] == 0 || alive[i] in Firsts(alive, n)
    ensures alive[i] == 0
  {
  }

  lemma {:induction false} SubsetSize(a: set<int>, b: set<int>)
    requires a <= b
    ensures |a| <= |b|
    ensures |a| == |b| ==> a == b
  {
    var rest := b - a;
    assert b == a + rest;
  }

  lemma PackedServesAll(t: Table, sockfd: int, fd: int)
    requires Inv(t, sockfd) && Packed(t) && fd in t.open
    ensures !Unserved(t, fd)
  {
    var firsts := t.alive[..t.num];
    forall i | 0 <= i < |firsts|
      ensures firsts[i] in Occupied(t)
    {
      assert t.alive[i] == firsts[i];
    }
    FullIsMany(firsts, Occupied(t));
    SubsetSize(Occupied(t), t.open);
    assert fd in Occupied(t);
  }

  /** Every open connection is served exactly when the occupied slots are the first ones. */
  lemma ServedIffPacked(t: Table, sockfd: int)
    requires Inv(t, sockfd)
    ensures (forall fd :: fd in t.open ==> !Unserved(t, fd)) <==> Packed(t)
  {
    if Packed(t) {
      forall fd | fd in t.open
        ensures !Unserved(t, fd)
      {
        PackedServesAll(t, sockfd, fd);
      }
    } else if forall fd :: fd in t.open ==> !Unserved(t, fd) {
      AllServedPacks(t, sockfd);
    }
  }

  /** So a table that is not packed stays so for good: some connection is never served again. */
  lemma UnpackedForever(calls: seq<Call>, t: Table, sockfd: int)
    requires Inv(t, sockfd) && FreshRun(calls, t, sockfd) && !Packed(t)
    ensures !Packed(Exec(calls, t, sockfd))
  {
    ServedIffPacked(t, sockfd);
    var fd :| fd in t.open && Unserved(t, fd);
    UnservedForever(calls, t, sockfd, fd);
    RunsKeepInv(calls, t, sockfd);
    ServedIffPacked(Exec(calls, t, sockfd), sockfd);
  }

  // ----- which calls keep a table packed

  /** Whether the loop over the first n slots closes the connection in slot i of t. */
  predicate Closes(m: Mode, e: Env, selR: set<int>, selW: set<int>, t: Table, n: nat, i: nat)
    requires i < |t.alive|
  {
    i < n && Drops(m, e, selR, selW, t.alive[i], i)
  }

  lemma {:induction false} SlotsClosed(m: Mode, e: Env, selR: set<int>, selW: set<int>, t: Table, n: nat)
    requires n <= |t.alive|
    ensures var r := SlotsUpTo(m, e, selR, selW, t, n);
            forall i :: 0 <= i < |t.alive| ==>
              r.alive[i] == if Closes(m, e, selR, selW, t, n, i) then 0 else t.alive[i]
  {
    if n > 0 {
      SlotsClosed(m, e, selR, selW, t, n - 1);
    }
  }

  /** With nothing lost, a table whose occupied slots are the first b ones is packed. */
  lemma PrefixIsPacked(t: Table, sockfd: int, b: nat)
    requires Inv(t, sockfd) && Leaked(t) == {} && b <= |t.alive|
    requires forall i :: 0 <= i < |t.alive| ==> (t.alive[i] != 0 <==> i < b)
    ensures Packed(t)
  {
    var firsts := t.alive[..b];
    forall i | 0 <= i < b
      ensures firsts[i] in Occupied(t)
    {
      assert t.alive[i] == firsts[i];
    }
    FullIsMany(firsts, Occupied(t));
    FirstsAreFew(t.alive, b);
    SubsetSize(Occupied(t), Firsts(t.alive, b));
    CountLeaks(t, sockfd);
  }

  lemma PackedLosesNothing(t: Table, sockfd: int)
    requires Inv(t, sockfd) && Packed(t)
    ensures Leaked(t) == {}
  {
    forall fd | fd in t.open
      ensures fd in Occupied(t)
    {
      PackedServesAll(t, sockfd, fd);
    }
  }

  /** The slots that the loop closes are the last occupied ones of a packed table. */
  ghost predicate ClosesLast(m: Mode, e: Env, selR: set<int>, selW: set<int>, t: Table, n: nat) {
    forall i, j :: 0 <= i < j < t.num && j < |t.alive| ==>
      Closes(m, e, selR, selW, t, n, i) ==> Closes(m, e, selR, selW, t, n, j)
  }

  /** The first slot from which on the loop closes everything. */
  lemma {:induction false} Boundary(m: Mode, e: Env, selR: set<int>, selW: set<int>, t: Table, n: nat, k: nat)
      returns (b: nat)
    requires k <= t.num <= |t.alive| && ClosesLast(m, e, selR, selW, t, n)
    ensures b <= k && forall i :: 0 <= i < k ==> (Closes(m, e, selR, selW, t, n, i) <==> b <= i)
  {
    if k == 0 {
      b := 0;
    } else {
      b := Boundary(m, e, selR, selW, t, n, k - 1);
      if b < k - 1 {
        assert Closes(m, e, selR, selW, t, n, b) ==> Closes(m, e, selR, selW, t, n, k - 1);
      } else if !Closes(m, e, selR, selW, t, n, k - 1) {
        b := k;
      }
    }
  }

  /** The loop leaves a packed table packed exactly when it closes the last connections only. */
  lemma SlotsPackedIff(m: Mode, e: Env, selR: set<int>, selW: set<int>, t: Table, n: nat, sockfd: int)
    requires Inv(t, sockfd) && Packed(t) && n <= t.num && 0 !in selR && 0 !in selW
    ensures Packed(SlotsUpTo(m, e, selR, selW, t, n)) <==> ClosesLast(m, e, selR, selW, t, n)
  {
    var r := SlotsUpTo(m, e, selR, selW, t, n);
    SlotsClosed(m, e, selR, selW, t, n);
    SlotsKeepInv(m, e, selR, selW, t, n, sockfd);
    if ClosesLast(m, e, selR, selW, t, n) {
      var b := Boundary(m, e, selR, selW, t, n, t.num);
      PackedLosesNothing(t, sockfd);
      PrefixIsPacked(r, sockfd, b);
    }
    if Packed(r) {
      forall i, j | 0 <= i < j < t.num && Closes(m, e, selR, selW, t, n, i)
        ensures Closes(m, e, selR, selW, t, n, j)
      {
        assert r.alive[i] == 0 && r.alive[j] == 0 && t.alive[j] != 0;
      }
    }
  }

  /** A whole call that finds a packed table leaves it packed exactly when it closes the last
      connections only: as many as it likes, but none before one that it keeps. */
  lemma RoundPackedIff(m: Mode, e: Env, t: Table, sockfd: int)
    requires Inv(t, sockfd) && FreshEnv(e, t, sockfd) && Packed(t)
    ensures var t1, t2 := AcceptOn(t, e.fd1), Admitted(m, e, t, sockfd);
            && 0 <= t1.num
            && (Packed(Round(m, e, t, sockfd)) <==>
                e.ret <= 0 || ClosesLast(m, e, e.readyR * t1.readSet, e.readyW * t1.writeSet, t2, t1.num))
  {
    var t1, t2 := AcceptOn(t, e.fd1), Admitted(m, e, t, sockfd);
    AdmittedKeepsInv(m, e, t, sockfd);
    AcceptKeepsPacked(t, sockfd, e.fd1);
    AcceptKeepsPacked(t1, sockfd, e.fd2);
    SlotsPackedIff(m, e, e.readyR * t1.readSet, e.readyW * t1.writeSet, t2, t1.num, sockfd);
  }

  // ----- one connection can always be served

  /** Over every run from a table that has lost nothing: the next accept is admitted, or some slot
      that the next call visits holds a connection, which makes room when it is closed. */
  lemma OneAlwaysServed(calls: seq<Call>, t: Table, sockfd: int)
    requires Inv(t, sockfd) && FreshRun(calls, t, sockfd) && Leaked(t) == {}
    ensures var r := Exec(calls, t, sockfd);
            r.num < UART_TCP_CLIENT_MAX || exists i :: 0 <= i < r.num == |r.alive| && r.alive[i] != 0
  {
    var r := Exec(calls, t, sockfd);
    RunsKeepInv(calls, t, sockfd);
    if r.num == UART_TCP_CLIENT_MAX {
      assert |Occupied(r)| > 0;
      var fd :| fd in Occupied(r);
    }
  }

  /** An admitted connection is in a slot that the calls visit. */
  lemma AdmittedIsServed(t: Table, sockfd: int, fd: int)
    requires Inv(t, sockfd) && FreshFd(t, sockfd, fd) && fd > 0
    ensures fd in AcceptOn(t, fd).open <==> t.num < UART_TCP_CLIENT_MAX
    ensures t.num < UART_TCP_CLIENT_MAX ==> !Unserved(AcceptOn(t, fd), fd)
  {
    if t.num < UART_TCP_CLIENT_MAX {
      FreeSlot(t, sockfd);
      assert AcceptOn(t, fd).alive[t.num] == fd;
    }
  }

  /** The listening socket is in no set of a zeroed control block and never gets into one, so the
      second accept of rw_tcpserver and recv_tcpserver never happens. */
  lemma ListenerNeverSelected(calls: seq<Call>, t: Table, sockfd: int, m: Mode, e: Env)
    requires Inv(t, sockfd) && FreshRun(calls, t, sockfd) && sockfd !in t.readSet
    requires FreshEnv(e, Exec(calls, t, sockfd), sockfd)
    ensures Admitted(m, e, Exec(calls, t, sockfd), sockfd) == AcceptOn(Exec(calls, t, sockfd), e.fd1)
  {
    RunsKeepInv(calls, t, sockfd);
    NeverListening(calls, t, sockfd);
    RoundSkipsListener(m, e, Exec(calls, t, sockfd), sockfd);
  }

  lemma {:induction false} NeverListening(calls: seq<Call>, t: Table, sockfd: int)
    requires Inv(t, sockfd) && FreshRun(calls, t, sockfd) && sockfd !in t.readSet
    ensures sockfd !in Exec(calls, t, sockfd).readSet
  {
    if calls != [] {
      var n := |calls| - 1;
      FreshPrefix(calls, t, sockfd);
      RunsKeepInv(calls[..n], t, sockfd);
      NeverListening(calls[..n], t, sockfd);
      RoundSkipsListener(calls[n].m, calls[n].e, Exec(calls[..n], t, sockfd), sockfd);
    }
  }

  lemma RoundSkipsListener(m: Mode, e: Env, t: Table, sockfd: int)
    requires Inv(t, sockfd) && FreshEnv(e, t, sockfd) && sockfd !in t.readSet
    ensures Admitted(m, e, t, sockfd) == AcceptOn(t, e.fd1) && sockfd !in Round(m, e, t, sockfd).readSet
  {
    var t1 := AcceptOn(t, e.fd1);
    AcceptKeepsInv(t, sockfd, e.fd1);
    SlotsShrinkSet(m, e, e.readyR * t1.readSet, e.readyW * t1.writeSet, t1, t1.num);
  }

  lemma {:induction false} SlotsShrinkSet(m: Mode, e: Env, selR: set<int>, selW: set<int>, t: Table, n: int)
    requires 0 <= n <= |t.alive|
    ensures SlotsUpTo(m, e, selR, selW, t, n).readSet <= t.readSet
  {
    if n > 0 {
      SlotsShrinkSet(m, e, selR, selW, t, n - 1);
    }
  }

  // ----- the bound on lost connections is reached

  /** A call in which fd connects and, if closing is positive, reading from closing fails. */
  function Connect(fd: int, closing: int): Call {
    Call(Mode(true, false), Env(fd, -1, if closing > 0 then 1 else 0, {closing}, {}, 0, _ => false, _ => true))
  }

  /** Only slot k is occupied and `num` is just behind it: k connections are lost. */
  ghost predicate Worn(t: Table, k: nat, sockfd: int, top: int) {
    && Inv(t, sockfd) && k < UART_TCP_CLIENT_MAX && t.num == k + 1
    && (forall i :: 0 <= i < |t.alive| ==> (t.alive[i] != 0 <==> i == k))
    && (forall fd :: fd in t.open ==> fd < top)
  }

  lemma WornHasLost(t: Table, k: nat, sockfd: int, top: int)
    requires Worn(t, k, sockfd, top)
    ensures |Leaked(t)| == k
  {
    assert Occupied(t) == {t.alive[k]};
    CountLeaks(t, sockfd);
  }

  lemma {:induction false} OnlySlotDrops(m: Mode, e: Env, t: Table, k: nat, n: nat)
    requires DistinctSlots(t.alive) && k < |t.alive| && n <= |t.alive| && t.alive[k] > 0
    requires m.reading && e.readFails(k)
    ensures SlotsUpTo(m, e, {t.alive[k]}, {}, t, n) == if n <= k then t else CloseAt(t, k)
  {
    if n > 0 {
      OnlySlotDrops(m, e, t, k, n - 1);
    }
  }

  /** A new connection takes slot k + 1, and the one in slot k fails. */
  lemma NextSlot(t: Table, k: nat, sockfd: int, top: int)
    requires Worn(t, k, sockfd, top) && k + 1 < UART_TCP_CLIENT_MAX && top > sockfd
    ensures var c := Connect(top, t.alive[k]);
            && FreshEnv(c.e, t, sockfd)
            && Round(c.m, c.e, t, sockfd) == CloseAt(AcceptOn(t, top), k)
  {
    var c := Connect(top, t.alive[k]);
    var t1 := AcceptOn(t, top);
    assert t.alive[k] in Occupied(t);
    AcceptKeepsInv(t, sockfd, top);
    FreeSlot(t, sockfd);
    assert c.e.readyR * t1.readSet == {t1.alive[k]} && c.e.readyW * t1.writeSet == {};
    assert sockfd !in c.e.readyR;
    OnlySlotDrops(c.m, c.e, t1, k, t1.num);
  }

  /** An accept for which slot `num` is free. */
  lemma Admit(t: Table, sockfd: int, top: int)
    requires Inv(t, sockfd) && t.num < UART_TCP_CLIENT_MAX && sockfd < top && forall fd :: fd in t.open ==> fd < top
    ensures FreshFd(t, sockfd, top) && Inv(AcceptOn(t, top), sockfd)
    ensures var u := AcceptOn(t, top);
            u.alive == t.alive[t.num := top] && u.num == t.num + 1 && u.open == t.open + {top}
  {
    Stored(t, sockfd, top);
    AcceptKeepsInv(t, sockfd, top);
  }

  /** Slot k has been freed again and slot k + 1 is taken, but `num` counts slot k + 1 only if the
      lost connections are counted. */
  ghost predicate Moved(t: Table, k: nat, sockfd: int, top: int) {
    && Inv(t, sockfd) && k + 1 < UART_TCP_CLIENT_MAX && t.num == k + 1
    && (forall i :: 0 <= i < |t.alive| ==> (t.alive[i] != 0 <==> i == k + 1))
    && (forall fd :: fd in t.open ==> fd < top)
  }

  lemma Moves(t: Table, k: nat, sockfd: int, top: int)
    requires Worn(t, k, sockfd, top) && k + 1 < UART_TCP_CLIENT_MAX && top > sockfd
    ensures Moved(CloseAt(AcceptOn(t, top), k), k, sockfd, top + 1)
  {
    Admit(t, sockfd, top);
    var t1 := AcceptOn(t, top);
    assert t1.alive[k] == t.alive[k];
    CloseKeepsInv(t1, sockfd, k);
  }

  /** The connection after that is stored over the one in slot k + 1. */
  lemma WearsOut(t: Table, k: nat, sockfd: int, top: int)
    requires Moved(t, k, sockfd, top) && top > sockfd
    ensures FreshFd(t, sockfd, top) && Worn(AcceptOn(t, top), k + 1, sockfd, top + 1)
  {
    Admit(t, sockfd, top);
  }

  ghost predicate Reaches(calls: seq<Call>, sockfd: int, t: Table) {
    FreshRun(calls, Zeroed(), sockfd) && Exec(calls, Zeroed(), sockfd) == t
  }

  lemma ReachesNext(calls: seq<Call>, c: Call, sockfd: int, t: Table)
    requires Reaches(calls, sockfd, t) && FreshEnv(c.e, t, sockfd)
    ensures Reaches(calls + [c], sockfd, Round(c.m, c.e, t, sockfd))
  {
    var all := calls + [c];
    assert all[..|calls|] == calls;
    forall k | 0 <= k < |all|
      ensures FreshEnv(all[k].e, Exec(all[..k], Zeroed(), sockfd), sockfd)
    {
      if k < |calls| {
        assert all[..k] == calls[..k] && all[k] == calls[k];
      }
    }
  }

  /** A call in which fd connects and nothing else happens. */
  lemma ThenConnect(calls: seq<Call>, fd: int, sockfd: int, t: Table) returns (calls': seq<Call>)
    requires Reaches(calls, sockfd, t) && FreshFd(t, sockfd, fd)
    ensures Reaches(calls', sockfd, AcceptOn(t, fd))
  {
    ReachesNext(calls, Connect(fd, 0), sockfd, t);
    calls' := calls + [Connect(fd, 0)];
  }

  lemma MoveOn(calls: seq<Call>, t: Table, k: nat, sockfd: int, top: int) returns (calls': seq<Call>, t': Table)
    requires Reaches(calls, sockfd, t) && Worn(t, k, sockfd, top)
    requires k + 1 < UART_TCP_CLIENT_MAX && top > sockfd
    ensures Reaches(calls', sockfd, t') && Moved(t', k, sockfd, top + 1)
  {
    var c := Connect(top, t.alive[k]);
    NextSlot(t, k, sockfd, top);
    Moves(t, k, sockfd, top);
    ReachesNext(calls, c, sockfd, t);
    calls', t' := calls + [c], CloseAt(AcceptOn(t, top), k);
  }

  lemma LoseOneMore(calls: seq<Call>, t: Table, k: nat, sockfd: int, top: int) returns (calls': seq<Call>, t': Table)
    requires Reaches(calls, sockfd, t) && Moved(t, k, sockfd, top) && top > sockfd
    ensures Reaches(calls', sockfd, t') && Worn(t', k + 1, sockfd, top + 1)
  {
    WearsOut(t, k, sockfd, top);
    t' := AcceptOn(t, top);
    calls' := ThenConnect(calls, top, sockfd, t);
  }

  lemma FirstConnects(sockfd: int) returns (calls: seq<Call>, t: Table)
    requires sockfd > 0
    ensures Reaches(calls, sockfd, t) && Worn(t, 0, sockfd, sockfd + 2)
  {
    Admit(Zeroed(), sockfd, sockfd + 1);
    t := AcceptOn(Zeroed(), sockfd + 1);
    calls := ThenConnect([], sockfd + 1, sockfd, Zeroed());
  }

  lemma {:induction false} Losing(k: nat, sockfd: int) returns (calls: seq<Call>, t: Table)
    requires k < UART_TCP_CLIENT_MAX && sockfd > 0
    ensures Reaches(calls, sockfd, t) && Worn(t, k, sockfd, sockfd + 2 + 2 * k)
  {
    if k == 0 {
      calls, t := FirstConnects(sockfd);
    } else {
      calls, t := Losing(k - 1, sockfd);
      calls, t := MoveOn(calls, t, k - 1, sockfd, sockfd + 2 * k);
      calls, t := LoseOneMore(calls, t, k - 1, sockfd, sockfd + 2 * k + 1);
    }
  }

  /** Fifteen connections can be lost, for any listening socket; no run loses more. */
  lemma FifteenCanBeLost(sockfd: int) returns (calls: seq<Call>)
    requires sockfd > 0
    ensures FreshRun(calls, Zeroed(), sockfd) && |Leaked(Exec(calls, Zeroed(), sockfd))| == UART_TCP_CLIENT_MAX - 1
  {
    var k, t := UART_TCP_CLIENT_MAX - 1, Zeroed();
    calls, t := Losing(k, sockfd);
    WornHasLost(t, k, sockfd, sockfd + 2 + 2 * k);
  }
}
