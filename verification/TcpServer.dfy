/** The TCP server control block of include/protocol_socket.h lines 13-24, updated in place. */
module TcpServer {
  import opened ConnectionTable

  class TcpServerCrol {
    var connfdAlivenum: int
    var maxFd: int
    var readSet: set<int>
    var writeSet: set<int>
    const sockfd: int
    const connfdAlive: array<int>
    ghost var open: set<int>

    /** The zero-initialised control block, of which only `sockfd` is assigned. */
    constructor (sockfd: int)
      requires sockfd > 0
      ensures fresh(connfdAlive) && this.sockfd == sockfd && Valid()
      ensures View() == Zeroed() && Leaked(View()) == {} && Packed(View())
    {
      this.sockfd := sockfd;
      connfdAlivenum := 0;
      maxFd := 0;
      readSet := {};
      writeSet := {};
      connfdAlive := new int[UART_TCP_CLIENT_MAX](_ => 0);
      open := {};
    }

    ghost function View(): Table
      reads this, connfdAlive
    {
      Table(connfdAlive[..], connfdAlivenum, maxFd, readSet, writeSet, open)
    }

    ghost predicate Valid()
      reads this, connfdAlive
    {
      connfdAlive.Length == UART_TCP_CLIENT_MAX && Inv(View(), sockfd)
    }

    /** acceptTcpConnet, when accept would return connfd. */
    method AcceptTcpConnet(connfd: int)
      requires Valid() && FreshFd(View(), sockfd, connfd)
      modifies this, connfdAlive
      ensures Valid() && View() == old(AcceptOn(View(), connfd))
    {
      AcceptKeepsInv(View(), sockfd, connfd);
      if connfdAlivenum >= UART_TCP_CLIENT_MAX {
        return;
      }
      if connfd >= 0 {
        FreeSlot(View(), sockfd);
        var i := 0;
        while i < UART_TCP_CLIENT_MAX
          invariant i <= UART_TCP_CLIENT_MAX
          invariant forall j :: 0 <= j < i ==> connfdAlive[j] != 0
          modifies {}
        {
          if connfdAlive[i] == 0 {
            break;
          }
          i := i + 1;
        }
        assert i < UART_TCP_CLIENT_MAX;
        Store(connfd);
      }
    }

    /** The free slot found, the descriptor goes to slot connfd_alivenum. */
    method Store(connfd: int)
      requires connfdAlive.Length == UART_TCP_CLIENT_MAX && 0 <= connfdAlivenum < UART_TCP_CLIENT_MAX
      requires 0 in connfdAlive[..] && connfd >= 0
      modifies this, connfdAlive
      ensures View() == old(AcceptOn(View(), connfd))
    {
      connfdAlive[connfdAlivenum] := connfd;
      connfdAlivenum := connfdAlivenum + 1;
      readSet := readSet + {connfd};
      writeSet := writeSet + {connfd};
      if connfd > maxFd {
        maxFd := connfd;
      }
      open := open + {connfd};
    }

    /** The four statements after a fatal error on slot i. */
    method CloseSlot(i: nat)
      requires Valid() && i < UART_TCP_CLIENT_MAX && connfdAlive[i] != 0
      modifies this, connfdAlive
      ensures Valid() && View() == old(CloseAt(View(), i))
    {
      CloseKeepsInv(View(), sockfd, i);
      var connfd := connfdAlive[i];
      open := open - {connfd};
      connfdAlive[i] := 0;
      connfdAlivenum := connfdAlivenum - 1;
      readSet := readSet - {connfd};
      writeSet := writeSet - {connfd};
    }

    /** rw_tcpserver, send_tcpserver and recv_tcpserver, according to m. */
    method Serve(m: Mode, e: Env)
      requires Valid() && FreshEnv(e, View(), sockfd)
      modifies this, connfdAlive
      ensures Valid() && View() == old(Round(m, e, View(), sockfd))
    {
      ghost var t := View();
      AdmittedKeepsInv(m, e, t, sockfd);
      AcceptTcpConnet(e.fd1);
      var connMax := connfdAlivenum;
      if e.ret <= 0 {
        return;
      }
      var selR, selW := e.readyR * readSet, e.readyW * writeSet;
      if m.reading && sockfd in selR {
        AcceptTcpConnet(e.fd2);
      }
      ServeSlots(m, e, selR, selW, connMax);
    }

    /** The loop over the first connMax slots. */
    method ServeSlots(m: Mode, e: Env, selR: set<int>, selW: set<int>, connMax: int)
      requires Valid() && 0 <= connMax <= UART_TCP_CLIENT_MAX && 0 !in selR && 0 !in selW
      modifies this, connfdAlive
      ensures Valid() && View() == old(SlotsUpTo(m, e, selR, selW, View(), connMax))
    {
      ghost var t := View();
      var i := 0;
      while i < connMax
        invariant 0 <= i <= connMax
        invariant Valid() && View() == SlotsUpTo(m, e, selR, selW, t, i)
      {
        var connfd := connfdAlive[i];
        if m.writing && connfd in selW && e.sendLen > 0 && e.writeFails(i) {
          CloseSlot(i);
        } else if m.reading && connfd in selR && e.readFails(i) {
          CloseSlot(i);
        }
        i := i + 1;
      }
    }
  }
}
