/** The table of client connections of the TCP server, src/protocol_socket.c lines 300-532, on
    values.  The outcomes of accept, select, read and write are chosen by the environment. */
module ConnectionTable {

  const UART_TCP_CLIENT_MAX: nat := 16

  /** `open` is not in the source: the client descriptors that were accepted and not closed. */
  datatype Table = Table(alive: seq<int>, num: int, maxFd: int, readSet: set<int>, writeSet: set<int>, open: set<int>)

  /** A zeroed control block. */
  function Zeroed(): Table {
    Table(seq(UART_TCP_CLIENT_MAX, _ => 0), 0, 0, {}, {}, {})
  }

  /** acceptTcpConnet when accept would return fd.  The loop looks for a free slot, but the store
      goes to slot `num`. */
  function AcceptOn(t: Table, fd: int): (r: Table)
    ensures |r.alive| == |t.alive|
  {
    if t.num >= UART_TCP_CLIENT_MAX || fd < 0 then t
    else if 0 in t.alive && 0 <= t.num < |t.alive| then
      Table(t.alive[t.num := fd], t.num + 1, if fd > t.maxFd then fd else t.maxFd,
            t.readSet + {fd}, t.writeSet + {fd}, t.open + {fd})
    else t.(open := t.open + {fd})
  }

  /** Closing the connection in slot i after a fatal read or write error. */
  function CloseAt(t: Table, i: nat): (r: Table)
    requires i < |t.alive|
    ensures |r.alive| == |t.alive|
  {
    var fd := t.alive[i];
    Table(t.alive[i := 0], t.num - 1, t.maxFd, t.readSet - {fd}, t.writeSet - {fd}, t.open - {fd})
  }

  function Occupied(t: Table): set<int> {
    set i | 0 <= i < |t.alive| && t.alive[i] != 0 :: t.alive[i]
  }

  /** Accepted, still open, but in no slot any more. */
  function Leaked(t: Table): set<int> {
    t.open - Occupied(t)
  }

  ghost predicate DistinctSlots(alive: seq<int>) {
    forall i, j :: 0 <= i < j < |alive| && alive[i] != 0 ==> alive[i] != alive[j]
  }

  /** What every run keeps.  `num` counts the open client descriptors; the occupied slots hold
      distinct ones among them, each in both sets and at most maxFd. */
  ghost predicate Inv(t: Table, sockfd: int) {
    && |t.alive| == UART_TCP_CLIENT_MAX && sockfd > 0
    && t.num == |t.open| <= UART_TCP_CLIENT_MAX
    && DistinctSlots(t.alive) && Occupied(t) <= t.open
    && (forall fd :: fd in t.open ==> 0 < fd <= t.maxFd && fd != sockfd)
    && t.open <= t.readSet <= t.open + {sockfd}
    && t.open <= t.writeSet <= t.open + {sockfd}
  }

  /** What is assumed of accept: an error, or a positive descriptor that is not in use. */
  ghost predicate FreshFd(t: Table, sockfd: int, fd: int) {
    fd < 0 || (fd > 0 && fd !in t.open && fd != sockfd)
  }

  /** With no free slot, there are as many distinct descriptors as slots. */
  lemma {:induction false} FullIsMany(alive: seq<int>, s: set<int>)
    requires 0 !in alive && DistinctSlots(alive)
    requires forall i :: 0 <= i < |alive| ==> alive[i] in s
    ensures |alive| <= |s|
  {
    if alive != [] {
      var n := |alive| - 1;
      assert alive[n] in alive;
      FullIsMany(alive[..n], s - {alive[n]});
    }
  }

  /** An admitted accept always finds a free slot. */
  lemma FreeSlot(t: Table, sockfd: int)
    requires Inv(t, sockfd) && t.num < UART_TCP_CLIENT_MAX
    ensures 0 in t.alive
  {
    if 0 !in t.alive {
      forall i | 0 <= i < |t.alive|
        ensures t.alive[i] in t.open
      {
        assert t.alive[i] in t.alive;
        assert t.alive[i] in Occupied(t);
      }
      FullIsMany(t.alive, t.open);
    }
  }

  /** What an admitted accept leaves: the descriptor in the slot of the old count and in both sets,
      and a maximum that is the larger one of the two. */
  lemma Stored(t: Table, sockfd: int, fd: int)
    requires Inv(t, sockfd) && fd > 0 && t.num < UART_TCP_CLIENT_MAX
    ensures var u := AcceptOn(t, fd);
            && u.alive == t.alive[t.num := fd] && u.num == t.num + 1 && u.open == t.open + {fd}
            && u.readSet == t.readSet + {fd} && u.writeSet == t.writeSet + {fd}
            && fd <= u.maxFd && t.maxFd <= u.maxFd && (u.maxFd == fd || u.maxFd == t.maxFd)
  {
    FreeSlot(t, sockfd);
  }

  /** Otherwise nothing happens. */
  lemma NotStored(t: Table, sockfd: int, fd: int)
    requires Inv(t, sockfd) && (fd < 0 || t.num == UART_TCP_CLIENT_MAX)
    ensures AcceptOn(t, fd) == t
  {
  }

  lemma AcceptKeepsInv(t: Table, sockfd: int, fd: int)
    requires Inv(t, sockfd) && FreshFd(t, sockfd, fd)
    ensures Inv(AcceptOn(t, fd), sockfd)
  {
    if t.num < UART_TCP_CLIENT_MAX && fd >= 0 {
      FreeSlot(t, sockfd);
      var t' := AcceptOn(t, fd);
      forall i | 0 <= i < |t.alive| && t.alive[i] != 0
        ensures t.alive[i] in t.open
      {
        assert t.alive[i] in Occupied(t);
      }
      assert t'.alive == t.alive[t.num := fd] && t'.open == t.open + {fd};
      assert Occupied(t') <= t'.open;
    }
  }

  lemma CloseKeepsInv(t: Table, sockfd: int, i: nat)
    requires Inv(t, sockfd) && i < UART_TCP_CLIENT_MAX && t.alive[i] != 0
    ensures Inv(CloseAt(t, i), sockfd)
  {
    var t' := CloseAt(t, i);
    assert t.alive[i] in Occupied(t);
    forall j | 0 <= j < |t.alive| && t'.alive[j] != 0
      ensures t'.alive[j] in t'.open
    {
      assert t.alive[j] in Occupied(t);
    }
  }

  // ----- lost connections

  /** An accept loses the connection in slot `num`, if there is one: its descriptor stays open but
      is in no slot.  That happens exactly when this slot is occupied. */
  lemma AcceptLeaks(t: Table, sockfd: int, fd: int)
    requires Inv(t, sockfd) && FreshFd(t, sockfd, fd) && fd > 0 && t.num < UART_TCP_CLIENT_MAX
    ensures Leaked(AcceptOn(t, fd)) == Leaked(t) + (if t.alive[t.num] != 0 then {t.alive[t.num]} else {})
  {
    FreeSlot(t, sockfd);
    var t', old_ := AcceptOn(t, fd), t.alive[t.num];
    forall x
      ensures x in Occupied(t') <==> x == fd || (x in Occupied(t) && x != old_)
    {
      if x in Occupied(t) && x != old_ {
        var i :| 0 <= i < |t.alive| && t.alive[i] != 0 && t.alive[i] == x;
        assert t'.alive[i] == x;
      }
      if x == fd {
        assert t'.alive[t.num] == fd;
      }
    }
    if old_ != 0 {
      assert old_ in Occupied(t);
    }
  }

  /** A close loses nothing and recovers nothing: a lost connection stays lost for good. */
  lemma CloseKeepsLeaks(t: Table, sockfd: int, i: nat)
    requires Inv(t, sockfd) && i < UART_TCP_CLIENT_MAX && t.alive[i] != 0
    ensures Leaked(CloseAt(t, i)) == Leaked(t)
  {
    var t', fd := CloseAt(t, i), t.alive[i];
    assert fd in Occupied(t);
    forall x
      ensures x in Occupied(t') <==> x in Occupied(t) && x != fd
    {
      if x in Occupied(t) && x != fd {
        var j :| 0 <= j < |t.alive| && t.alive[j] != 0 && t.alive[j] == x;
        assert t'.alive[j] == x;
      }
    }
  }

  /** The occupied slots are the first `num` ones. */
  ghost predicate Packed(t: Table) {
    |t.alive| == UART_TCP_CLIENT_MAX && 0 <= t.num <= |t.alive|
    && forall i :: 0 <= i < |t.alive| ==> (t.alive[i] != 0 <==> i < t.num)
  }

  /** Closing a connection keeps a packed table packed exactly when it was the last one. */
  lemma ClosePacked(t: Table, i: nat)
    requires Packed(t) && i < t.num
    ensures Packed(CloseAt(t, i)) <==> i == t.num - 1
  {
    var u, n := CloseAt(t, i), t.num - 1;
    assert u.alive[n] == if i == n then 0 else t.alive[n];
  }

  /** Closing any other connection of a packed table makes the next admitted accept lose one. */
  lemma CloseThenAccept(t: Table, sockfd: int, i: nat, fd: int)
    requires Inv(t, sockfd) && Packed(t) && i < t.num
    requires FreshFd(CloseAt(t, i), sockfd, fd) && fd > 0
    ensures Leaked(AcceptOn(CloseAt(t, i), fd)) == Leaked(t) + if i == t.num - 1 then {} else {t.alive[t.num - 1]}
  {
    CloseKeepsInv(t, sockfd, i);
    CloseKeepsLeaks(t, sockfd, i);
    AcceptLeaks(CloseAt(t, i), sockfd, fd);
  }

  lemma StoredLast(t: Table, sockfd: int, fd: int)
    requires Inv(t, sockfd) && Packed(t) && fd > 0 && t.num < UART_TCP_CLIENT_MAX
    ensures Packed(AcceptOn(t, fd)) && t.alive[t.num] == 0
  {
    Stored(t, sockfd, fd);
  }

  /** A packed table loses nothing. */
  lemma AcceptKeepsPacked(t: Table, sockfd: int, fd: int)
    requires Inv(t, sockfd) && Packed(t) && FreshFd(t, sockfd, fd)
    ensures Packed(AcceptOn(t, fd)) && Leaked(AcceptOn(t, fd)) == Leaked(t)
  {
    if t.num < UART_TCP_CLIENT_MAX && fd >= 0 {
      AcceptLeaks(t, sockfd, fd);
      StoredLast(t, sockfd, fd);
    }
  }

  // ----- one call of the server functions

  /** The environment of a call: what the first and a second accept would return, what select
      returns and which descriptors it finds ready, and which slots meet a fatal error. */
  datatype Env = Env(fd1: int, fd2: int, ret: int, readyR: set<int>, readyW: set<int>, sendLen: int,
                     writeFails: nat -> bool, readFails: nat -> bool)

  /** rw_tcpserver reads and writes, send_tcpserver only writes, recv_tcpserver only reads. */
  datatype Mode = Mode(reading: bool, writing: bool)

  /** Whether slot i is closed in this call. */
  predicate Drops(m: Mode, e: Env, selR: set<int>, selW: set<int>, fd: int, i: nat) {
    || (m.writing && fd in selW && e.sendLen > 0 && e.writeFails(i))
    || (m.reading && fd in selR && e.readFails(i))
  }

  /** The loop over the first n slots. */
  function SlotsUpTo(m: Mode, e: Env, selR: set<int>, selW: set<int>, t: Table, n: nat): (r: Table)
    requires n <= |t.alive|
    ensures |r.alive| == |t.alive|
  {
    if n == 0 then t
    else
      var r := SlotsUpTo(m, e, selR, selW, t, n - 1);
      if Drops(m, e, selR, selW, r.alive[n - 1], n - 1) then CloseAt(r, n - 1) else r
  }

  /** The table at the start of the loop; the number of slots to visit was fixed before. */
  function Admitted(m: Mode, e: Env, t: Table, sockfd: int): Table {
    var t1 := AcceptOn(t, e.fd1);
    if m.reading && sockfd in e.readyR * t1.readSet then AcceptOn(t1, e.fd2) else t1
  }

  function Round(m: Mode, e: Env, t: Table, sockfd: int): Table {
    var t1 := AcceptOn(t, e.fd1);
    var t2 := Admitted(m, e, t, sockfd);
    if e.ret <= 0 || t1.num < 0 || t1.num > |t2.alive| then t1
    else SlotsUpTo(m, e, e.readyR * t1.readSet, e.readyW * t1.writeSet, t2, t1.num)
  }

  ghost predicate FreshEnv(e: Env, t: Table, sockfd: int) {
    FreshFd(t, sockfd, e.fd1) && FreshFd(AcceptOn(t, e.fd1), sockfd, e.fd2)
  }

  lemma {:induction false} SlotsKeepInv(m: Mode, e: Env, selR: set<int>, selW: set<int>, t: Table, n: nat, sockfd: int)
    requires Inv(t, sockfd) && n <= UART_TCP_CLIENT_MAX && 0 !in selR && 0 !in selW
    ensures Inv(SlotsUpTo(m, e, selR, selW, t, n), sockfd)
    ensures Leaked(SlotsUpTo(m, e, selR, selW, t, n)) == Leaked(t)
  {
    if n > 0 {
      SlotsKeepInv(m, e, selR, selW, t, n - 1, sockfd);
      var r := SlotsUpTo(m, e, selR, selW, t, n - 1);
      if Drops(m, e, selR, selW, r.alive[n - 1], n - 1) {
        CloseKeepsInv(r, sockfd, n - 1);
        CloseKeepsLeaks(r, sockfd, n - 1);
      }
    }
  }

  lemma AdmittedKeepsInv(m: Mode, e: Env, t: Table, sockfd: int)
    requires Inv(t, sockfd) && FreshEnv(e, t, sockfd)
    ensures Inv(AcceptOn(t, e.fd1), sockfd) && Inv(Admitted(m, e, t, sockfd), sockfd)
    ensures forall u :: u == AcceptOn(t, e.fd1) || u == Admitted(m, e, t, sockfd) ==>
              Leaked(t) <= Leaked(u) && (Bounded(t) ==> Bounded(u))
  {
    AcceptKeepsInv(t, sockfd, e.fd1);
    AcceptMayLeak(t, sockfd, e.fd1);
    AcceptKeepsInv(AcceptOn(t, e.fd1), sockfd, e.fd2);
    AcceptMayLeak(AcceptOn(t, e.fd1), sockfd, e.fd2);
  }

  /** A call keeps the invariant, whatever was lost stays lost, and not everything gets lost. */
  lemma RoundKeepsInv(m: Mode, e: Env, t: Table, sockfd: int)
    requires Inv(t, sockfd) && FreshEnv(e, t, sockfd)
    ensures Inv(Round(m, e, t, sockfd), sockfd)
    ensures Leaked(t) <= Leaked(Round(m, e, t, sockfd))
    ensures Bounded(t) ==> Bounded(Round(m, e, t, sockfd))
  {
    var t1, t2 := AcceptOn(t, e.fd1), Admitted(m, e, t, sockfd);
    AdmittedKeepsInv(m, e, t, sockfd);
    SlotsKeepInv(m, e, e.readyR * t1.readSet, e.readyW * t1.writeSet, t2, t1.num, sockfd);
  }

  lemma AcceptMayLeak(t: Table, sockfd: int, fd: int)
    requires Inv(t, sockfd) && FreshFd(t, sockfd, fd)
    ensures Leaked(t) <= Leaked(AcceptOn(t, fd))
    ensures Bounded(t) ==> Bounded(AcceptOn(t, fd))
  {
    if fd > 0 && t.num < UART_TCP_CLIENT_MAX {
      AcceptLeaks(t, sockfd, fd);
      AcceptKeepsInv(t, sockfd, fd);
      FreeSlot(t, sockfd);
      var t' := AcceptOn(t, fd);
      assert t'.alive[t.num] == fd && fd in Occupied(t');
      CountLeaks(t', sockfd);
      assert {fd} <= Occupied(t') && |Occupied(t') - {fd}| == |Occupied(t')| - 1;
    }
  }

  /** Not every connection that the table has room for is lost. */
  ghost predicate Bounded(t: Table) {
    |Leaked(t)| < UART_TCP_CLIENT_MAX
  }

  // ----- whole runs

  datatype Call = Call(m: Mode, e: Env)

  function Exec(calls: seq<Call>, t: Table, sockfd: int): Table {
    if calls == [] then t
    else var c := calls[|calls| - 1]; Round(c.m, c.e, Exec(calls[..|calls| - 1], t, sockfd), sockfd)
  }

  /** accept only ever returns errors or descriptors not in use. */
  ghost predicate FreshRun(calls: seq<Call>, t: Table, sockfd: int) {
    forall k {:trigger calls[k]} :: 0 <= k < |calls| ==> FreshEnv(calls[k].e, Exec(calls[..k], t, sockfd), sockfd)
  }

  lemma FreshPrefix(calls: seq<Call>, t: Table, sockfd: int)
    requires FreshRun(calls, t, sockfd) && calls != []
    ensures var n := |calls| - 1;
            FreshRun(calls[..n], t, sockfd) && FreshEnv(calls[n].e, Exec(calls[..n], t, sockfd), sockfd)
  {
    var n := |calls| - 1;
    assert FreshEnv(calls[n].e, Exec(calls[..n], t, sockfd), sockfd);
    forall k | 0 <= k < n
      ensures FreshEnv(calls[..n][k].e, Exec(calls[..n][..k], t, sockfd), sockfd)
    {
      assert calls[..n][..k] == calls[..k] && calls[..n][k] == calls[k];
    }
  }

  /** Over every run: at most `num` <= 16 slots are occupied, `num` counts the open descriptors, and
      lost connections are never recovered, but never more than fifteen. */
  lemma {:induction false} RunsKeepInv(calls: seq<Call>, t: Table, sockfd: int)
    requires Inv(t, sockfd) && FreshRun(calls, t, sockfd)
    ensures var r := Exec(calls, t, sockfd);
            && Inv(r, sockfd) && |Occupied(r)| <= r.num <= UART_TCP_CLIENT_MAX
            && Leaked(t) <= Leaked(r) && |Leaked(r)| == r.num - |Occupied(r)|
            && (Bounded(t) ==> |Leaked(r)| <= UART_TCP_CLIENT_MAX - 1)
  {
    if calls != [] {
      var n := |calls| - 1;
      FreshPrefix(calls, t, sockfd);
      RunsKeepInv(calls[..n], t, sockfd);
      RoundKeepsInv(calls[n].m, calls[n].e, Exec(calls[..n], t, sockfd), sockfd);
    }
    CountLeaks(Exec(calls, t, sockfd), sockfd);
  }

  lemma CountLeaks(t: Table, sockfd: int)
    requires Inv(t, sockfd)
    ensures |Leaked(t)| == t.num - |Occupied(t)| && |Occupied(t)| <= t.num
  {
    assert t.open == Leaked(t) + Occupied(t);
  }
}
