/** What a call of the TCP server does to each connection, in terms of what the environment did to
    it: src/protocol_socket.c lines 305-490. */
module CallOutcomes {
  import opened ConnectionTable

  // The three server functions.
  const RW_TCPSERVER := Mode(true, true)
  const SEND_TCPSERVER := Mode(false, true)
  const RECV_TCPSERVER := Mode(true, false)

  /** A descriptor that was selected for writing, with something to send, on which write fails for
      good; or that was selected for reading and on which read fails for good. */
  predicate Fatal(m: Mode, e: Env, selR: set<int>, selW: set<int>, fd: int, i: nat) {
    if m.writing && fd in selW && e.sendLen > 0 && e.writeFails(i) then true
    else m.reading && fd in selR && e.readFails(i)
  }

  /** The descriptors in the first n slots that meet such an error. */
  function Lost(m: Mode, e: Env, selR: set<int>, selW: set<int>, alive: seq<int>, n: int): set<int> {
    set i | 0 <= i < n && i < |alive| && alive[i] != 0 && Fatal(m, e, selR, selW, alive[i], i) :: alive[i]
  }

  /** r is t without the lost descriptors: they are in no set any more and their slots are free;
      nothing else has changed. */
  ghost predicate Without(t: Table, lost: set<int>, r: Table) {
    && |r.alive| == |t.alive|
    && (forall i :: 0 <= i < |t.alive| ==> r.alive[i] == if t.alive[i] in lost then 0 else t.alive[i])
    && r.open == t.open - lost && r.readSet == t.readSet - lost && r.writeSet == t.writeSet - lost
    && r.maxFd == t.maxFd
  }

  lemma OneMoreLost(m: Mode, e: Env, selR: set<int>, selW: set<int>, alive: seq<int>, n: nat)
    requires n < |alive|
    ensures Lost(m, e, selR, selW, alive, n + 1) == Lost(m, e, selR, selW, alive, n)
              + if alive[n] != 0 && Fatal(m, e, selR, selW, alive[n], n) then {alive[n]} else {}
  {
  }

  /** The loop over the first n slots. */
  lemma {:induction false} LoopOutcome(m: Mode, e: Env, selR: set<int>, selW: set<int>, t: Table, n: nat)
    requires DistinctSlots(t.alive) && n <= |t.alive| && 0 !in selR && 0 !in selW
    ensures Without(t, Lost(m, e, selR, selW, t.alive, n), SlotsUpTo(m, e, selR, selW, t, n))
  {
    if n > 0 {
      LoopOutcome(m, e, selR, selW, t, n - 1);
      OneMoreLost(m, e, selR, selW, t.alive, n - 1);
    }
  }

  /** The connections that a call closes: what was selected is what is ready and was in the sets
      after the first accept, and the slots visited are those counted then. */
  function Closed(m: Mode, e: Env, t: Table): set<int> {
    var t1 := AcceptOn(t, e.fd1);
    if e.ret <= 0 then {}
    else Lost(m, e, e.readyR * t1.readSet, e.readyW * t1.writeSet, t1.alive, t1.num)
  }

  /** A second accept happens when the listening socket was selected for reading. */
  function Entered(m: Mode, e: Env, t: Table, sockfd: int): Table {
    var t1 := AcceptOn(t, e.fd1);
    if e.ret > 0 && m.reading && sockfd in e.readyR && sockfd in t1.readSet then AcceptOn(t1, e.fd2) else t1
  }

  lemma LostBefore(m: Mode, e: Env, selR: set<int>, selW: set<int>, alive: seq<int>, after: seq<int>, n: int)
    requires |alive| == |after| && forall i :: 0 <= i < n && i < |alive| ==> alive[i] == after[i]
    ensures Lost(m, e, selR, selW, alive, n) == Lost(m, e, selR, selW, after, n)
  {
  }

  /** The second accept does not touch the slots to be visited. */
  lemma SecondAccept(t: Table, sockfd: int, fd: int)
    requires Inv(t, sockfd) && FreshFd(t, sockfd, fd)
    ensures forall i :: 0 <= i < t.num && i < |t.alive| ==> AcceptOn(t, fd).alive[i] == t.alive[i]
  {
    if t.num < UART_TCP_CLIENT_MAX && fd > 0 {
      Stored(t, sockfd, fd);
    }
  }

  lemma LoopOfCall(m: Mode, e: Env, t: Table, sockfd: int)
    requires Inv(t, sockfd) && FreshEnv(e, t, sockfd) && e.ret > 0
    ensures Without(Entered(m, e, t, sockfd), Closed(m, e, t), Round(m, e, t, sockfd))
  {
    var t1, t2 := AcceptOn(t, e.fd1), Entered(m, e, t, sockfd);
    var selR, selW := e.readyR * t1.readSet, e.readyW * t1.writeSet;
    AdmittedKeepsInv(m, e, t, sockfd);
    SecondAccept(t1, sockfd, e.fd2);
    LostBefore(m, e, selR, selW, t1.alive, t2.alive, t1.num);
    assert t2 == Admitted(m, e, t, sockfd);
    LoopOutcome(m, e, selR, selW, t2, t1.num);
  }

  /** A whole call: the accepted connections are in, those with a fatal error are out, and nothing
      else happens. */
  lemma CallOutcome(m: Mode, e: Env, t: Table, sockfd: int)
    requires Inv(t, sockfd) && FreshEnv(e, t, sockfd)
    ensures Without(Entered(m, e, t, sockfd), Closed(m, e, t), Round(m, e, t, sockfd))
  {
    if e.ret > 0 {
      LoopOfCall(m, e, t, sockfd);
    }
  }

  // ----- what that means for one connection

  /** The first accept leaves the connections that are there alone. */
  lemma FirstAccept(t: Table, sockfd: int, fd1: int, i: nat)
    requires Inv(t, sockfd) && FreshFd(t, sockfd, fd1) && i < t.num && i < |t.alive| && t.alive[i] != 0
    ensures var fd, t1 := t.alive[i], AcceptOn(t, fd1);
            && fd in t.open && fd > 0 && t1.alive[i] == fd && i < t1.num
            && fd in t1.open && fd in t1.readSet && fd in t1.writeSet
  {
    assert t.alive[i] in Occupied(t);
    AcceptKeepsInv(t, sockfd, fd1);
    SecondAccept(t, sockfd, fd1);
  }

  /** A connection in a visited slot: closed, and gone from slots and sets, exactly when the call
      meets a fatal error on it; otherwise it stays where it is. */
  lemma ConnectionOutcome(m: Mode, e: Env, t: Table, sockfd: int, i: nat)
    requires Inv(t, sockfd) && FreshEnv(e, t, sockfd) && i < t.num && i < |t.alive| && t.alive[i] != 0
    ensures var fd, r := t.alive[i], Round(m, e, t, sockfd);
            |r.alive| == |t.alive| &&
            if e.ret > 0 && Fatal(m, e, e.readyR, e.readyW, fd, i)
            then fd !in r.open && fd !in r.readSet && fd !in r.writeSet && fd !in r.alive && r.alive[i] == 0
            else fd in r.open && fd in r.readSet && fd in r.writeSet && r.alive[i] == fd
  {
    var fd, t1, t2, r := t.alive[i], AcceptOn(t, e.fd1), Entered(m, e, t, sockfd), Round(m, e, t, sockfd);
    FirstAccept(t, sockfd, e.fd1, i);
    AdmittedKeepsInv(m, e, t, sockfd);
    SecondAccept(t1, sockfd, e.fd2);
    CallOutcome(m, e, t, sockfd);
    OnceInSlots(t1, sockfd, i);
    assert fd in Closed(m, e, t) <==> e.ret > 0 && Fatal(m, e, e.readyR, e.readyW, fd, i);
  }

  lemma OnceInSlots(t: Table, sockfd: int, i: nat)
    requires Inv(t, sockfd) && i < |t.alive| && t.alive[i] != 0
    ensures forall j :: 0 <= j < |t.alive| && t.alive[j] == t.alive[i] ==> j == i
  {
  }

  /** A call in which no read and no write fails closes nothing. */
  lemma NothingFails(m: Mode, e: Env, t: Table, sockfd: int)
    requires Inv(t, sockfd) && FreshEnv(e, t, sockfd)
    requires forall i: nat :: !e.writeFails(i) && !e.readFails(i)
    ensures Round(m, e, t, sockfd).open == Entered(m, e, t, sockfd).open && t.open <= Round(m, e, t, sockfd).open
    ensures Round(m, e, t, sockfd).alive == Entered(m, e, t, sockfd).alive
  {
    CallOutcome(m, e, t, sockfd);
    assert Closed(m, e, t) == {};
    WithoutNothing(Entered(m, e, t, sockfd), Round(m, e, t, sockfd));
    EnteredGrows(m, e, t, sockfd);
  }

  lemma WithoutNothing(t: Table, r: Table)
    requires Without(t, {}, r)
    ensures r.alive == t.alive && r.open == t.open
  {
  }

  lemma EnteredGrows(m: Mode, e: Env, t: Table, sockfd: int)
    ensures t.open <= Entered(m, e, t, sockfd).open
  {
  }

  /** send_tcpserver does not depend on what could be read, nor recv_tcpserver on what could be
      written. */
  lemma OneSided(e: Env, e': Env, t: Table, sockfd: int)
    requires Inv(t, sockfd) && FreshEnv(e, t, sockfd)
    ensures e' == e.(readyR := e'.readyR, readFails := e'.readFails) ==>
              Round(SEND_TCPSERVER, e', t, sockfd) == Round(SEND_TCPSERVER, e, t, sockfd)
    ensures e' == e.(readyW := e'.readyW, writeFails := e'.writeFails, sendLen := e'.sendLen) ==>
              Round(RECV_TCPSERVER, e', t, sockfd) == Round(RECV_TCPSERVER, e, t, sockfd)
  {
    if e' == e.(readyR := e'.readyR, readFails := e'.readFails) {
      SameOutcome(SEND_TCPSERVER, e, e', t, sockfd);
    }
    if e' == e.(readyW := e'.readyW, writeFails := e'.writeFails, sendLen := e'.sendLen) {
      SameOutcome(RECV_TCPSERVER, e, e', t, sockfd);
    }
  }

  lemma SameOutcome(m: Mode, e: Env, e': Env, t: Table, sockfd: int)
    requires Inv(t, sockfd) && FreshEnv(e, t, sockfd) && FreshEnv(e', t, sockfd)
    requires Entered(m, e, t, sockfd) == Entered(m, e', t, sockfd) && Closed(m, e, t) == Closed(m, e', t)
    ensures Round(m, e, t, sockfd) == Round(m, e', t, sockfd)
  {
    CallOutcome(m, e, t, sockfd);
    CallOutcome(m, e', t, sockfd);
    RoundKeepsInv(m, e, t, sockfd);
    RoundKeepsInv(m, e', t, sockfd);
    OnlyOneWithout(Entered(m, e, t, sockfd), Closed(m, e, t), Round(m, e, t, sockfd), Round(m, e', t, sockfd));
  }

  lemma OnlyOneWithout(t: Table, lost: set<int>, r: Table, r': Table)
    requires Without(t, lost, r) && Without(t, lost, r') && r.num == |r.open| && r'.num == |r'.open|
    ensures r == r'
  {
    assert r.alive == r'.alive;
  }
}
