/** Starting five sub-processes, src/process_interactive.c lines 466-600.

    Every process is a copy of the same program, with its own loop index and its own process table.
    The outcome of fork and the interleaving are arbitrary. */
module ForkLoop {

  const SUB_PROC_NUM: nat := 5
  const MAX_SUB_PROC_NUM: nat := 20

  /** An entry of s_subproclist; every registered function is timer_test with `data` seconds. */
  datatype Entry = Entry(valid: bool, pid: nat, data: nat)

  datatype Pc =
    | AtLoop            // line 555
    | Forked(ret: int)  // line 558, with what fork returned
    | AfterLoop         // line 573
    | Running           // line 535, the table entry filled in
    | Waiting           // line 593
    | Exited

  datatype Proc = Proc(ppid: nat, i: nat, pc: Pc, table: seq<Entry>)

  type Procs = map<nat, Proc>

  /** What the environment decides in a step: whether a fork succeeds and with which pid. */
  datatype Outcome = Fail | Ok(child: nat)

  function EmptyTable(): (t: seq<Entry>)
    ensures |t| == MAX_SUB_PROC_NUM
  {
    seq(MAX_SUB_PROC_NUM, _ => Entry(false, 0, 0))
  }

  /** sub_proc_exec_func fills in entry i of the process's own copy. */
  function Registered(pid: nat, i: nat): seq<Entry>
    requires i < SUB_PROC_NUM
  {
    EmptyTable()[i := Entry(true, pid, 5 * (i + 1))]
  }

  ghost predicate HasChild(sys: Procs, p: nat) {
    exists q :: q in sys && q != p && sys[q].ppid == p
  }

  /** fork by p at loop index i: the new process is a copy of p that sees 0. */
  ghost predicate ForkStep(sys: Procs, p: nat, o: Outcome, sys': Procs)
    requires p in sys
  {
    var s := sys[p];
    if o.Fail? then sys' == sys[p := s.(pc := Forked(-1))]
    else
      && o.child !in sys && o.child > 0
      && sys' == sys[p := s.(pc := Forked(o.child))][o.child := Proc(p, s.i, Forked(0), s.table)]
  }

  /** wait: an exited child is taken off the system, or there is none left. */
  ghost predicate WaitStep(sys: Procs, p: nat, sys': Procs)
    requires p in sys
  {
    if HasChild(sys, p) then
      exists q :: q in sys && q != p && sys[q].ppid == p && sys[q].pc == Exited && sys' == sys - {q}
    else
      sys' == sys[p := sys[p].(pc := Exited)]
  }

  function Advance(s: Proc, p: nat): Proc {
    match s.pc
    case Forked(ret) => if ret == 0 then s.(pc := AfterLoop) else s.(pc := AtLoop, i := s.i + 1)
    case AfterLoop =>
      if s.i == SUB_PROC_NUM || s.i >= |s.table| then s.(pc := Waiting)
      else s.(pc := Running, table := s.table[s.i := Entry(true, p, 5 * (s.i + 1))])
    case _ => s.(pc := if s.pc == Running then Exited else AfterLoop)
  }

  /** One step of process p. */
  ghost predicate Step(sys: Procs, p: nat, o: Outcome, sys': Procs) {
    && p in sys
    && sys[p].pc != Exited
    && if sys[p].pc == AtLoop && sys[p].i < SUB_PROC_NUM then ForkStep(sys, p, o, sys')
       else if sys[p].pc == Waiting then WaitStep(sys, p, sys')
       else sys' == sys[p := Advance(sys[p], p)]
  }

  ghost predicate Next(sys: Procs, sys': Procs) {
    exists p, o :: Step(sys, p, o, sys')
  }

  ghost predicate Behaviour(root: nat, tr: seq<Procs>) {
    && tr != [] && tr[0] == map[root := Proc(0, 0, AtLoop, EmptyTable())] && root > 0
    && forall k :: 0 <= k < |tr| - 1 ==> Next(tr[k], tr[k + 1])
  }

  /** A child never forks: it leaves the loop at once with the index it was born with. */
  ghost predicate ChildOk(root: nat, r: Proc, q: nat, s: Proc) {
    && s.ppid == root && s.i < SUB_PROC_NUM
    && (s.i < r.i || (s.i == r.i && r.pc == Forked(q)))
    && match s.pc
       case Forked(ret) => ret == 0 && s.table == EmptyTable()
       case AfterLoop => s.table == EmptyTable()
       case Running => s.table == Registered(q, s.i)
       case Exited => s.table == Registered(q, s.i)
       case _ => false
  }

  ghost predicate Inv(root: nat, sys: Procs) {
    && root > 0 && root in sys
    && var r := sys[root];
    && r.i <= SUB_PROC_NUM && r.table == EmptyTable() && !r.pc.Running?
    && (r.pc.Forked? ==> r.pc.ret != 0 && r.i < SUB_PROC_NUM)
    && (r.pc.AfterLoop? || r.pc.Waiting? || r.pc.Exited? ==> r.i == SUB_PROC_NUM)
    && (forall q :: q in sys && q != root ==> ChildOk(root, r, q, sys[q]))
    && (forall q, q' :: q in sys && q' in sys && q != root && q' != root && q != q' ==> sys[q].i != sys[q'].i)
    && |sys| <= 1 + r.i + (if r.pc.Forked? then 1 else 0)
    && (r.pc.Exited? ==> sys.Keys == {root})
  }

  lemma RootStep(root: nat, sys: Procs, o: Outcome, sys': Procs)
    requires Inv(root, sys) && Step(sys, root, o, sys')
    ensures Inv(root, sys')
  {
    var r := sys[root];
    if r.pc == AtLoop && r.i < SUB_PROC_NUM {
      RootForks(root, sys, o, sys');
    } else if r.pc == Waiting {
      RootWaits(root, sys, sys');
    } else {
      assert sys'.Keys == sys.Keys;
      OthersKept(root, sys, sys', root);
    }
  }

  /** All processes but p are as before, and p does not matter for them. */
  lemma OthersKept(root: nat, sys: Procs, sys': Procs, p: nat)
    requires Inv(root, sys) && root in sys' && sys'[root].i >= sys[root].i
    requires sys[root].i == sys'[root].i ==> sys[root].pc.Forked? ==> sys[root].pc == sys'[root].pc
    requires forall q :: q in sys' && q != root && q != p ==> q in sys && sys'[q] == sys[q]
    ensures forall q :: q in sys' && q != root && q != p ==> ChildOk(root, sys'[root], q, sys'[q])
  {
    forall q | q in sys' && q != root && q != p
      ensures ChildOk(root, sys'[root], q, sys'[q])
    {
      assert ChildOk(root, sys[root], q, sys[q]);
    }
  }

  lemma RootForks(root: nat, sys: Procs, o: Outcome, sys': Procs)
    requires Inv(root, sys) && sys[root].pc == AtLoop && sys[root].i < SUB_PROC_NUM && ForkStep(sys, root, o, sys')
    ensures Inv(root, sys')
  {
    if o.Ok? {
      RootGetsChild(root, sys, o.child, sys');
    } else {
      assert sys'.Keys == sys.Keys;
      OthersKept(root, sys, sys', root);
    }
  }

  lemma RootGetsChild(root: nat, sys: Procs, c: nat, sys': Procs)
    requires Inv(root, sys) && sys[root].pc == AtLoop && sys[root].i < SUB_PROC_NUM
    requires ForkStep(sys, root, Ok(c), sys')
    ensures Inv(root, sys')
  {
    assert sys'.Keys == sys.Keys + {c} && c !in sys;
    assert |sys'| == |sys'.Keys| == |sys.Keys| + 1;
    OthersKept(root, sys, sys', c);
    NewChild(root, sys, c, sys');
  }

  lemma NewChild(root: nat, sys: Procs, c: nat, sys': Procs)
    requires Inv(root, sys) && sys[root].pc == AtLoop && sys[root].i < SUB_PROC_NUM
    requires ForkStep(sys, root, Ok(c), sys')
    ensures ChildOk(root, sys'[root], c, sys'[c])
    ensures forall q :: q in sys && q != root ==> sys'[q] == sys[q] && sys[q].i < sys'[c].i
  {
    forall q | q in sys && q != root
      ensures sys'[q] == sys[q] && sys[q].i < sys'[c].i
    {
      assert ChildOk(root, sys[root], q, sys[q]);
    }
  }

  lemma OthersAreChildren(root: nat, sys: Procs)
    requires Inv(root, sys)
    ensures forall q :: q in sys && q != root ==> sys[q].ppid == root
  {
    forall q | q in sys && q != root
      ensures sys[q].ppid == root
    {
      assert ChildOk(root, sys[root], q, sys[q]);
    }
  }

  lemma RootWaits(root: nat, sys: Procs, sys': Procs)
    requires Inv(root, sys) && sys[root].pc == Waiting && WaitStep(sys, root, sys')
    ensures Inv(root, sys')
  {
    OthersAreChildren(root, sys);
    if HasChild(sys, root) {
      var q :| q in sys && q != root && sys[q].ppid == root && sys[q].pc == Exited && sys' == sys - {q};
      assert sys'.Keys == sys.Keys - {q};
    } else {
      assert sys'.Keys == sys.Keys;
      assert sys.Keys == {root};
    }
    OthersKept(root, sys, sys', root);
  }

  lemma ChildAdvances(root: nat, r: Proc, p: nat, s: Proc)
    requires ChildOk(root, r, p, s)
    ensures s.pc != AtLoop && s.pc != Waiting
    ensures s.pc != Exited ==> ChildOk(root, r, p, Advance(s, p)) && Advance(s, p).i == s.i
  {
  }

  lemma ChildStep(root: nat, sys: Procs, p: nat, o: Outcome, sys': Procs)
    requires Inv(root, sys) && p != root && Step(sys, p, o, sys')
    ensures Inv(root, sys')
  {
    ChildAdvances(root, sys[root], p, sys[p]);
    assert sys'.Keys == sys.Keys;
    OthersKept(root, sys, sys', p);
  }

  /** Over every run: one process for each successful fork and no other, at most five beside the
      parent, each with its own index and only its own entry registered, in its own table. */
  lemma {:induction false} RunsKeepInv(root: nat, tr: seq<Procs>)
    requires Behaviour(root, tr)
    ensures Inv(root, tr[|tr| - 1])
    decreases |tr|
  {
    if |tr| > 1 {
      var k := |tr| - 2;
      RunsKeepInv(root, tr[..k + 1]);
      assert Next(tr[k], tr[k + 1]);
      var p, o :| Step(tr[k], p, o, tr[k + 1]);
      if p == root {
        RootStep(root, tr[k], o, tr[k + 1]);
      } else {
        ChildStep(root, tr[k], p, o, tr[k + 1]);
      }
    }
  }

  lemma FiveDistinctChildren(root: nat, tr: seq<Procs>)
    requires Behaviour(root, tr)
    ensures var sys := tr[|tr| - 1];
            && |sys| <= 1 + SUB_PROC_NUM && root in sys && sys[root].table == EmptyTable()
            && (forall q :: q in sys && q != root ==> sys[q].ppid == root && sys[q].i < SUB_PROC_NUM)
            && (forall q, q' :: q in sys && q' in sys && q != root && q' != root && q != q' ==> sys[q].i != sys[q'].i)
            && (forall q :: q in sys && q != root && (sys[q].pc.Running? || sys[q].pc.Exited?) ==>
                  OnlyEntry(sys[q].table, q, sys[q].i))
  {
    RunsKeepInv(root, tr);
    var sys := tr[|tr| - 1];
    forall q | q in sys && q != root
      ensures ChildOk(root, sys[root], q, sys[q])
    {
    }
  }

  /** Of the twenty entries only number i is filled in: with the pid, and 5, 10, 15, 20 or 25 seconds
      for i from 0 to 4. */
  ghost predicate OnlyEntry(table: seq<Entry>, pid: nat, i: nat) {
    && |table| == 20 && i < 20
    && table[i].valid && table[i].pid == pid && table[i].data == 5 + 5 * i
    && forall j :: 0 <= j < 20 && j != i ==> !table[j].valid
  }

  /** No run gets stuck: until the parent has exited, something can happen. */
  lemma NoDeadlock(root: nat, tr: seq<Procs>)
    requires Behaviour(root, tr)
    ensures var sys := tr[|tr| - 1];
            root in sys && (sys[root].pc.Exited? || exists sys' :: Next(sys, sys') && sys' != sys)
  {
    var sys := tr[|tr| - 1];
    RunsKeepInv(root, tr);
    if sys[root].pc.Waiting? && HasChild(sys, root) {
      var q :| q in sys && q != root && sys[q].ppid == root;
      ChildMoves(root, sys, q);
    } else if !sys[root].pc.Exited? {
      RootMoves(root, sys);
    }
  }

  lemma ChildMoves(root: nat, sys: Procs, q: nat)
    requires Inv(root, sys) && sys[root].pc.Waiting? && q in sys && q != root && sys[q].ppid == root
    ensures exists sys' :: Next(sys, sys') && sys' != sys
  {
    ChildAdvances(root, sys[root], q, sys[q]);
    if sys[q].pc.Exited? {
      assert Step(sys, root, Fail, sys - {q}) && q !in sys - {q};
      assert Next(sys, sys - {q});
    } else {
      var sys' := sys[q := Advance(sys[q], q)];
      assert Step(sys, q, Fail, sys') && sys'[q].pc != sys[q].pc;
      assert Next(sys, sys');
    }
  }

  lemma RootMoves(root: nat, sys: Procs)
    requires Inv(root, sys) && !sys[root].pc.Exited? && !(sys[root].pc.Waiting? && HasChild(sys, root))
    ensures exists sys' :: Next(sys, sys') && sys' != sys
  {
    var r := sys[root];
    if r.pc == AtLoop && r.i < SUB_PROC_NUM {
      Moves(sys, root, r.(pc := Forked(-1)));
    } else if r.pc == Waiting {
      Moves(sys, root, r.(pc := Exited));
    } else {
      Moves(sys, root, Advance(r, root));
    }
  }

  lemma Moves(sys: Procs, p: nat, s: Proc)
    requires p in sys && Step(sys, p, Fail, sys[p := s]) && s.pc != sys[p].pc
    ensures exists sys' :: Next(sys, sys') && sys' != sys
  {
    var sys' := sys[p := s];
    assert sys'[p] == s && Next(sys, sys');
  }

  /** At the top of the loop, a fork may succeed with any pid that is not in use; the child is at the
      same index and sees 0. */
  lemma ForkCanSucceed(root: nat, tr: seq<Procs>, c: nat)
    requires Behaviour(root, tr)
    requires var sys := tr[|tr| - 1];
             root in sys && sys[root].pc == AtLoop && sys[root].i < 5 && c !in sys && c > 0
    ensures var sys := tr[|tr| - 1];
            exists sys' :: Next(sys, sys') && sys'.Keys == sys.Keys + {c}
              && sys'[c].i == sys[root].i == sys'[root].i && sys'[c].pc == Forked(0) && sys'[root].pc == Forked(c)
  {
    var sys := tr[|tr| - 1];
    var r := sys[root];
    var sys' := sys[root := r.(pc := Forked(c))][c := Proc(root, r.i, Forked(0), r.table)];
    assert Step(sys, root, Ok(c), sys');
    assert Next(sys, sys') && sys'.Keys == sys.Keys + {c};
  }

  /** The parent exits only after every child has exited and been waited for. */
  lemma ParentExitsLast(root: nat, tr: seq<Procs>)
    requires Behaviour(root, tr) && root in tr[|tr| - 1] && tr[|tr| - 1][root].pc.Exited?
    ensures tr[|tr| - 1].Keys == {root}
  {
    RunsKeepInv(root, tr);
  }
}
