/** What the parent of src/process_interactive.c lines 545-600 has done when it is past its loop,
    counted along the run. */
module ForkRuns {
  import opened ForkLoop

  /** An attempt to fork at a loop index, and what fork returned to the parent. */
  datatype Attempt = Attempt(i: nat, ret: int)

  /** The attempt that one step makes, if it is one: the parent goes from the top of the loop to the
      place behind fork. */
  function AttemptIn(root: nat, sys: Procs, sys': Procs): seq<Attempt> {
    if root in sys && root in sys' && sys[root].pc == AtLoop && sys'[root].pc.Forked?
    then [Attempt(sys[root].i, sys'[root].pc.ret)] else []
  }

  /** All attempts of a run, in order. */
  function Attempts(root: nat, tr: seq<Procs>): seq<Attempt> {
    if |tr| < 2 then []
    else Attempts(root, tr[..|tr| - 1]) + AttemptIn(root, tr[|tr| - 2], tr[|tr| - 1])
  }

  /** Every process that ever was. */
  function Ever(tr: seq<Procs>): set<nat> {
    if tr == [] then {} else Ever(tr[..|tr| - 1]) + tr[|tr| - 1].Keys
  }

  /** The processes that successful attempts created. */
  function Created(ats: seq<Attempt>): set<nat> {
    set j | 0 <= j < |ats| && ats[j].ret > 0 :: ats[j].ret as nat
  }

  /** The process that attempt j created was there at some moment, with j as its loop index. */
  ghost predicate Born(tr: seq<Procs>, at: Attempt) {
    exists k :: 0 <= k < |tr| && BornIn(tr[k], at)
  }

  ghost predicate BornIn(sys: Procs, at: Attempt) {
    at.ret > 0 && at.ret as nat in sys && sys[at.ret as nat].i == at.i
  }

  /** Up to here: one attempt for each loop index gone through, in order. */
  ghost predicate Counted(ats: seq<Attempt>, r: Proc) {
    && |ats| == r.i + (if r.pc.Forked? then 1 else 0)
    && (forall j :: 0 <= j < |ats| ==> ats[j].i == j && ats[j].ret != 0)
    && (r.pc.Forked? ==> ats[|ats| - 1].ret == r.pc.ret)
  }

  /** No pid is used twice, because the parent does not wait before it is past the loop. */
  ghost predicate Apart(ats: seq<Attempt>) {
    forall i, j :: 0 <= i < j < |ats| && ats[i].ret > 0 ==> ats[i].ret != ats[j].ret
  }

  ghost predicate Present(sys: Procs, root: nat, ats: seq<Attempt>)
    requires root in sys
  {
    root !in Created(ats) && (sys[root].pc.Waiting? || sys[root].pc.Exited? || Created(ats) <= sys.Keys)
  }

  ghost predicate AllBorn(tr: seq<Procs>, ats: seq<Attempt>) {
    forall j :: 0 <= j < |ats| && ats[j].ret > 0 ==> Born(tr, ats[j])
  }

  // ----- one step

  /** A step adds processes by a successful attempt of the parent only. */
  ghost predicate StepOutcome(root: nat, sys: Procs, sys': Procs) {
    && root in sys && root in sys'
    && var ats := AttemptIn(root, sys, sys');
    && Created(ats) <= sys'.Keys <= sys.Keys + Created(ats)
    && Created(ats) !! sys.Keys
    && (ats != [] ==> ats[0].ret != 0 && (ats[0].ret > 0 ==> BornIn(sys', ats[0])))
    && (!sys'[root].pc.Waiting? && !sys'[root].pc.Exited? ==> sys.Keys <= sys'.Keys)
    && (sys[root].pc.Waiting? || sys[root].pc.Exited? ==> sys'[root].pc.Waiting? || sys'[root].pc.Exited?)
  }

  /** The parent goes through its loop one index at a time. */
  ghost predicate RootGoesOn(r: Proc, r': Proc) {
    || r' == r
    || (r.pc.AtLoop? && r.i < SUB_PROC_NUM && r'.pc.Forked? && r'.i == r.i)
    || (r.pc.Forked? && r'.pc.AtLoop? && r'.i == r.i + 1)
    || (!r.pc.Forked? && !r'.pc.Forked? && !r'.pc.AtLoop? && r'.i == r.i)
  }

  lemma RootOutcome(root: nat, sys: Procs, o: Outcome, sys': Procs)
    requires Inv(root, sys) && Step(sys, root, o, sys')
    ensures StepOutcome(root, sys, sys') && RootGoesOn(sys[root], sys'[root])
  {
  }

  lemma ChildOutcome(root: nat, sys: Procs, p: nat, o: Outcome, sys': Procs)
    requires Inv(root, sys) && p != root && Step(sys, p, o, sys')
    ensures StepOutcome(root, sys, sys') && RootGoesOn(sys[root], sys'[root])
  {
    ChildAdvances(root, sys[root], p, sys[p]);
  }

  lemma CountedStep(root: nat, sys: Procs, sys': Procs, ats: seq<Attempt>)
    requires root in sys && root in sys' && RootGoesOn(sys[root], sys'[root]) && StepOutcome(root, sys, sys')
    requires Counted(ats, sys[root])
    ensures Counted(ats + AttemptIn(root, sys, sys'), sys'[root])
  {
  }

  lemma CreatedBoth(a: seq<Attempt>, b: seq<Attempt>)
    ensures Created(a + b) == Created(a) + Created(b)
  {
    forall j | 0 <= j < |a| && a[j].ret > 0
      ensures a[j].ret as nat in Created(a + b)
    {
      assert (a + b)[j] == a[j];
    }
    forall j | 0 <= j < |b| && b[j].ret > 0
      ensures b[j].ret as nat in Created(a + b)
    {
      assert (a + b)[|a| + j] == b[j];
    }
  }

  lemma ApartStep(root: nat, sys: Procs, sys': Procs, ats: seq<Attempt>)
    requires Apart(ats) && root in sys && Present(sys, root, ats) && StepOutcome(root, sys, sys')
    requires RootGoesOn(sys[root], sys'[root])
    ensures Apart(ats + AttemptIn(root, sys, sys')) && Present(sys', root, ats + AttemptIn(root, sys, sys'))
  {
    var new_ := AttemptIn(root, sys, sys');
    CreatedBoth(ats, new_);
    if new_ != [] && new_[0].ret > 0 {
      assert new_[0].ret as nat in Created(new_);
      forall i | 0 <= i < |ats| && ats[i].ret > 0
        ensures ats[i].ret != new_[0].ret
      {
        assert ats[i].ret as nat in Created(ats);
      }
    }
  }

  lemma BornStays(tr: seq<Procs>, sys: Procs, ats: seq<Attempt>)
    requires AllBorn(tr, ats)
    ensures AllBorn(tr + [sys], ats)
  {
    forall j | 0 <= j < |ats| && ats[j].ret > 0
      ensures Born(tr + [sys], ats[j])
    {
      assert Born(tr, ats[j]);
      var k :| 0 <= k < |tr| && BornIn(tr[k], ats[j]);
      assert (tr + [sys])[k] == tr[k];
    }
  }

  // ----- whole runs

  ghost predicate RunInv(root: nat, sys: Procs, ats: seq<Attempt>, ever: set<nat>) {
    && Inv(root, sys)
    && Counted(ats, sys[root]) && Apart(ats) && Present(sys, root, ats)
    && ever == {root} + Created(ats) && sys.Keys <= ever
  }

  lemma StepTaken(root: nat, sys: Procs, sys': Procs)
    requires Inv(root, sys) && Next(sys, sys')
    ensures Inv(root, sys') && StepOutcome(root, sys, sys') && RootGoesOn(sys[root], sys'[root])
  {
    var p, o :| Step(sys, p, o, sys');
    if p == root {
      RootStep(root, sys, o, sys');
      RootOutcome(root, sys, o, sys');
    } else {
      ChildStep(root, sys, p, o, sys');
      ChildOutcome(root, sys, p, o, sys');
    }
  }

  lemma BornStep(root: nat, h: seq<Procs>, sys': Procs, ats: seq<Attempt>)
    requires h != [] && AllBorn(h, ats) && StepOutcome(root, h[|h| - 1], sys')
    ensures AllBorn(h + [sys'], ats + AttemptIn(root, h[|h| - 1], sys'))
  {
    var new_ := AttemptIn(root, h[|h| - 1], sys');
    BornStays(h, sys', ats);
    if new_ != [] && new_[0].ret > 0 {
      assert (h + [sys'])[|h|] == sys' && BornIn(sys', new_[0]);
    }
    var all := ats + new_;
    forall j | 0 <= j < |all| && all[j].ret > 0
      ensures Born(h + [sys'], all[j])
    {
      if j < |ats| {
        assert all[j] == ats[j];
      } else {
        assert all[j] == new_[0];
      }
    }
  }

  lemma RunStep(root: nat, sys: Procs, sys': Procs, ats: seq<Attempt>, ever: set<nat>)
    requires RunInv(root, sys, ats, ever)
    requires Inv(root, sys') && StepOutcome(root, sys, sys') && RootGoesOn(sys[root], sys'[root])
    ensures RunInv(root, sys', ats + AttemptIn(root, sys, sys'), ever + sys'.Keys)
  {
    CountedStep(root, sys, sys', ats);
    ApartStep(root, sys, sys', ats);
    CreatedBoth(ats, AttemptIn(root, sys, sys'));
    EverStep({root}, Created(ats), Created(AttemptIn(root, sys, sys')), sys.Keys, sys'.Keys);
  }

  lemma EverStep(roots: set<nat>, a: set<nat>, b: set<nat>, keys: set<nat>, keys': set<nat>)
    requires keys <= roots + a && b <= keys' <= keys + b
    ensures roots + a + keys' == roots + (a + b)
  {
  }

  lemma LastStep(root: nat, tr: seq<Procs>)
    requires Behaviour(root, tr) && |tr| > 1
    ensures Behaviour(root, tr[..|tr| - 1]) && Next(tr[|tr| - 2], tr[|tr| - 1])
  {
  }

  lemma RunStarts(root: nat, sys: Procs)
    requires Inv(root, sys) && sys == map[root := Proc(0, 0, AtLoop, EmptyTable())]
    ensures Attempts(root, [sys]) == [] && Ever([sys]) == {root} && RunInv(root, sys, [], {root})
  {
    assert [sys][..0] == [] && sys.Keys == {root};
  }

  lemma OneMore(root: nat, h: seq<Procs>, sys: Procs)
    requires h != []
    ensures Attempts(root, h + [sys]) == Attempts(root, h) + AttemptIn(root, h[|h| - 1], sys)
    ensures Ever(h + [sys]) == Ever(h) + sys.Keys
  {
    assert (h + [sys])[..|h|] == h;
  }

  lemma {:induction false} RunsCounted(root: nat, tr: seq<Procs>)
    requires Behaviour(root, tr)
    ensures RunInv(root, tr[|tr| - 1], Attempts(root, tr), Ever(tr)) && AllBorn(tr, Attempts(root, tr))
    decreases |tr|
  {
    if |tr| == 1 {
      RunsKeepInv(root, tr);
      RunStarts(root, tr[0]);
      assert tr == [tr[0]];
    } else {
      var h, sys, sys' := tr[..|tr| - 1], tr[|tr| - 2], tr[|tr| - 1];
      assert tr == h + [sys'] && h[|h| - 1] == sys;
      LastStep(root, tr);
      RunsCounted(root, h);
      StepTaken(root, sys, sys');
      RunStep(root, sys, sys', Attempts(root, h), Ever(h));
      BornStep(root, h, sys', Attempts(root, h));
      OneMore(root, h, sys');
    }
  }

  /** In every run, when the parent is past its loop: it has made exactly five attempts to fork, one
      at each index from 0 to 4; the processes that ever were are itself and those it created; and
      each of these was there with its own index. */
  lemma FiveAttempts(root: nat, tr: seq<Procs>)
    requires Behaviour(root, tr) && root in tr[|tr| - 1]
    requires var pc := tr[|tr| - 1][root].pc; pc.AfterLoop? || pc.Waiting? || pc.Exited?
    ensures var ats := Attempts(root, tr);
            && |ats| == 5 && (forall j :: 0 <= j < 5 ==> ats[j].i == j && ats[j].ret != 0)
            && Ever(tr) == {root} + Created(ats)
            && (forall j :: 0 <= j < 5 && ats[j].ret > 0 ==> Born(tr, ats[j]))
  {
    RunsCounted(root, tr);
  }

  /** If none of them failed, five processes were created, with the indices 0 to 4. */
  lemma AllStarted(root: nat, tr: seq<Procs>)
    requires Behaviour(root, tr) && root in tr[|tr| - 1]
    requires var pc := tr[|tr| - 1][root].pc; pc.AfterLoop? || pc.Waiting? || pc.Exited?
    requires forall j :: 0 <= j < |Attempts(root, tr)| ==> Attempts(root, tr)[j].ret > 0
    ensures |Created(Attempts(root, tr))| == 5
    ensures forall i :: 0 <= i < 5 ==> WasAChild(tr, root, i)
  {
    var ats := Attempts(root, tr);
    RunsCounted(root, tr);
    CreatedSize(ats);
    forall i | 0 <= i < 5
      ensures WasAChild(tr, root, i)
    {
      assert Born(tr, ats[i]) && ats[i].ret as nat in Created(ats);
      var k :| 0 <= k < |tr| && BornIn(tr[k], ats[i]);
      assert IsAChild(tr[k], root, i);
    }
  }

  ghost predicate WasAChild(tr: seq<Procs>, root: nat, i: nat) {
    exists k :: 0 <= k < |tr| && IsAChild(tr[k], root, i)
  }

  ghost predicate IsAChild(sys: Procs, root: nat, i: nat) {
    exists q :: q in sys && q != root && sys[q].i == i
  }

  lemma CreatedOne(at: Attempt)
    requires at.ret > 0
    ensures Created([at]) == {at.ret as nat}
  {
    assert [at][0] == at;
  }

  lemma {:induction false} CreatedSize(ats: seq<Attempt>)
    requires Apart(ats) && forall j :: 0 <= j < |ats| ==> ats[j].ret > 0
    ensures |Created(ats)| == |ats|
  {
    if ats != [] {
      var n := |ats| - 1;
      var h, at := ats[..n], ats[n];
      CreatedSize(h);
      CreatedOne(at);
      CreatedBoth(h, [at]);
      assert ats == h + [at];
      assert Created(ats) == Created(h) + {at.ret as nat} && at.ret as nat !in Created(h);
    }
  }

  /** A process disappears only after it has exited, when the parent waits for it. */
  lemma OnlyExitedGo(root: nat, tr: seq<Procs>, k: nat, q: nat)
    requires Behaviour(root, tr) && k + 1 < |tr| && q in tr[k] && q !in tr[k + 1]
    ensures tr[k][q].pc.Exited? && q != root && root in tr[k] && tr[k][root].pc.Waiting?
  {
    assert tr[..k + 1][k] == tr[k];
    assert Next(tr[k], tr[k + 1]);
    RunsKeepInv(root, tr[..k + 1]);
    var p, o :| Step(tr[k], p, o, tr[k + 1]);
    if p != root {
      ChildAdvances(root, tr[k][root], p, tr[k][p]);
    }
  }
}
