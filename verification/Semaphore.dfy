/** Mutual exclusion by one semaphore, src/process_interactive.c lines 357-464: the child prints
    "A" twice and the parent "B" twice, each between P and V, forever. */
module Semaphore {

  /** Where a process is in its loop. */
  datatype Pc = Outside | Entered | Half | Full

  datatype Who = Child | Parent

  /** `blocks` records one letter for each pair that was completed. */
  datatype State = State(sem: int, child: Pc, parent: Pc, out: string, blocks: string) {
    function Pc(w: Who): Pc {
      if w.Child? then child else parent
    }

    function Move(w: Who, pc: Pc): State {
      if w.Child? then this.(child := pc) else this.(parent := pc)
    }
  }

  function Letter(w: Who): char {
    if w.Child? then 'A' else 'B'
  }

  /** The next step of a process.  P blocks while the value is 0.  `fails` is the outcome of semop
      at a P or V: commPV then returns -1, which the loops ignore. */
  function Step(s: State, w: Who, fails: bool): State {
    match s.Pc(w)
    case Outside =>
      if fails then s.Move(w, Entered)
      else if s.sem > 0 then s.(sem := s.sem - 1).Move(w, Entered)
      else s
    case Entered => s.(out := s.out + [Letter(w)]).Move(w, Half)
    case Half => s.(out := s.out + [Letter(w)], blocks := s.blocks + [Letter(w)]).Move(w, Full)
    case Full =>
      if fails then s.Move(w, Outside) else s.(sem := s.sem + 1).Move(w, Outside)
  }

  /** After initSem and fork. */
  const INIT := State(1, Outside, Outside, "", "")

  datatype Event = Event(w: Who, fails: bool)

  function Exec(evs: seq<Event>): State {
    if evs == [] then INIT
    else Step(Exec(evs[..|evs| - 1]), evs[|evs| - 1].w, evs[|evs| - 1].fails)
  }

  /** No P fails: a failing event is not one of a process outside. */
  ghost predicate NoFailedP(evs: seq<Event>) {
    forall i {:trigger evs[i]} :: 0 <= i < |evs| && evs[i].fails ==> !Exec(evs[..i]).Pc(evs[i].w).Outside?
  }

  ghost predicate NoFailedV(evs: seq<Event>) {
    forall i {:trigger evs[i]} :: 0 <= i < |evs| && evs[i].fails ==> !Exec(evs[..i]).Pc(evs[i].w).Full?
  }

  /** The two processes are not inside together. */
  predicate Exclusive(s: State) {
    s.child.Outside? || s.parent.Outside?
  }

  function Other(w: Who): Who {
    if w.Child? then Parent else Child
  }

  /** P lets a process in beside the other one: its semop fails, or the value is positive. */
  predicate Breaks(s: State, e: Event) {
    s.Pc(e.w).Outside? && !s.Pc(Other(e.w)).Outside? && (e.fails || s.sem > 0)
  }

  /** The failures of semop that matter: 1 for a failed P, -1 for a failed V. */
  function Unpaired(s: State, e: Event): int {
    if !e.fails then 0 else match s.Pc(e.w) case Outside => 1 case Full => -1 case _ => 0
  }

  /** Failed Ps less failed Vs. */
  function Balance(evs: seq<Event>): int {
    if evs == [] then 0
    else Balance(evs[..|evs| - 1]) + Unpaired(Exec(evs[..|evs| - 1]), evs[|evs| - 1])
  }

  function Inside(pc: Pc): nat {
    if pc.Outside? then 0 else 1
  }

  /** Each letter twice. */
  function Doubled(blocks: string): string {
    if blocks == "" then "" else Doubled(blocks[..|blocks| - 1]) + [blocks[|blocks| - 1], blocks[|blocks| - 1]]
  }

  /** The unfinished letter, if any. */
  function Tail(s: State): string {
    (if s.child.Half? then "A" else "") + (if s.parent.Half? then "B" else "")
  }

  ghost predicate Inv(s: State) {
    && 0 <= s.sem
    && s.sem + Inside(s.child) + Inside(s.parent) <= 1
    && s.out == Doubled(s.blocks) + Tail(s)
  }

  lemma DoubledSnoc(blocks: string, c: char)
    ensures Doubled(blocks + [c]) == Doubled(blocks) + [c] + [c]
  {
    assert (blocks + [c])[..|blocks|] == blocks;
  }

  /** The output after a letter: a new unfinished block, or the unfinished one completed. */
  lemma LetterKeepsOut(s: State, w: Who)
    requires Inv(s) && (s.Pc(w).Entered? || s.Pc(w).Half?)
    ensures var s' := Step(s, w, false); s'.out == Doubled(s'.blocks) + Tail(s')
  {
    var s', c := Step(s, w, false), Letter(w);
    if s.Pc(w).Entered? {
      assert Tail(s) == "" && Tail(s') == [c];
      assert s.out == Doubled(s.blocks);
    } else {
      assert Tail(s) == [c] && Tail(s') == "";
      DoubledSnoc(s.blocks, c);
    }
  }

  /** Every step keeps the invariant, a failing one too unless it is a P. */
  lemma StepKeepsInv(s: State, e: Event)
    requires Inv(s) && (e.fails ==> !s.Pc(e.w).Outside?)
    ensures Inv(Step(s, e.w, e.fails))
  {
    if s.Pc(e.w).Entered? || s.Pc(e.w).Half? {
      LetterKeepsOut(s, e.w);
    } else {
      assert Tail(Step(s, e.w, e.fails)) == Tail(s);
    }
  }

  lemma EarlierEvents(evs: seq<Event>)
    requires evs != []
    ensures var n := |evs| - 1; var s, e := Exec(evs[..n]), evs[n];
            && (NoFailedP(evs) <==> NoFailedP(evs[..n]) && (e.fails ==> !s.Pc(e.w).Outside?))
            && (NoFailedV(evs) <==> NoFailedV(evs[..n]) && (e.fails ==> !s.Pc(e.w).Full?))
  {
    var n := |evs| - 1;
    assert forall i {:trigger evs[i]} :: 0 <= i < n ==> evs[..n][i] == evs[i] && evs[..n][..i] == evs[..i];
    assert forall i {:trigger evs[..n][i]} :: 0 <= i < n ==> evs[..n][i] == evs[i] && evs[..n][..i] == evs[..i];
  }

  /** In every interleaving in which no P fails, the processes are never inside together and the
      output is made of "AA" and "BB" blocks with at most one letter of an unfinished block behind
      them.  The semaphore value plus the processes inside is 1, or 0 for good once a V has failed. */
  lemma {:induction false} Exclusion(evs: seq<Event>)
    requires NoFailedP(evs)
    ensures var s := Exec(evs);
            && s.sem + Inside(s.child) + Inside(s.parent) == (if NoFailedV(evs) then 1 else 0)
            && Exclusive(s)
            && s.out == Doubled(s.blocks) + Tail(s) && |Tail(s)| <= 1
            && Inv(s)
  {
    if evs != [] {
      var n := |evs| - 1;
      EarlierEvents(evs);
      Exclusion(evs[..n]);
      StepKeepsInv(Exec(evs[..n]), evs[n]);
    }
  }

  /** As long as no P fails, some process can move unless a V has failed: that stops both. */
  lemma NeverStuckIff(evs: seq<Event>)
    requires NoFailedP(evs)
    ensures (exists w :: Step(Exec(evs), w, false) != Exec(evs)) <==> NoFailedV(evs)
  {
    var s := Exec(evs);
    Exclusion(evs);
    var w := if s.parent.Outside? then Child else Parent;
    assert NoFailedV(evs) ==> Step(s, w, false) != s;
  }

  /** From a state with one process outside, exactly a breaking step brings both inside. */
  lemma StepBreaksIff(s: State, e: Event)
    requires Exclusive(s)
    ensures !Exclusive(Step(s, e.w, e.fails)) <==> Breaks(s, e)
  {
  }

  ghost predicate ExclusiveAt(evs: seq<Event>, k: nat)
    requires k <= |evs|
  {
    Exclusive(Exec(evs[..k]))
  }

  ghost predicate BreaksAt(evs: seq<Event>, k: nat)
    requires k < |evs|
  {
    Breaks(Exec(evs[..k]), evs[k])
  }

  /** Exclusion at every moment of the run. */
  ghost predicate AlwaysExclusive(evs: seq<Event>) {
    forall k :: 0 <= k <= |evs| ==> ExclusiveAt(evs, k)
  }

  ghost predicate NeverBreaks(evs: seq<Event>) {
    forall k :: 0 <= k < |evs| ==> !BreaksAt(evs, k)
  }

  lemma SameMoment(evs: seq<Event>, h: seq<Event>, k: nat)
    requires h <= evs && k <= |h|
    ensures ExclusiveAt(h, k) <==> ExclusiveAt(evs, k)
    ensures k < |h| ==> (BreaksAt(h, k) <==> BreaksAt(evs, k))
  {
    assert h[..k] == evs[..k];
  }

  lemma LastMoment(evs: seq<Event>, h: seq<Event>)
    requires h <= evs && |evs| == |h| + 1
    ensures AlwaysExclusive(evs) <==> AlwaysExclusive(h) && ExclusiveAt(evs, |evs|)
  {
    forall k | 0 <= k <= |h|
      ensures ExclusiveAt(h, k) <==> ExclusiveAt(evs, k)
    {
      SameMoment(evs, h, k);
    }
  }

  lemma LastStep(evs: seq<Event>, h: seq<Event>)
    requires h <= evs && |evs| == |h| + 1
    ensures NeverBreaks(evs) <==> NeverBreaks(h) && !BreaksAt(evs, |h|)
  {
    forall k | 0 <= k < |h|
      ensures BreaksAt(h, k) <==> BreaksAt(evs, k)
    {
      SameMoment(evs, h, k);
    }
  }

  /** A run keeps exclusion at every moment exactly when none of its steps is a P that fails, or
      finds a positive value, while the other process is inside. */
  lemma {:induction false} ExclusionIff(evs: seq<Event>)
    ensures AlwaysExclusive(evs) <==> NeverBreaks(evs)
  {
    if evs == [] {
      assert evs[..0] == [];
    } else {
      var h := evs[..|evs| - 1];
      ExclusionIff(h);
      LastMoment(evs, h);
      LastStep(evs, h);
      assert h[..|h|] == h && evs[..|evs|] == evs;
      if AlwaysExclusive(h) {
        assert ExclusiveAt(h, |h|);
        StepBreaksIff(Exec(h), evs[|h|]);
      }
    }
  }

  /** With failures too, the semaphore value plus the processes inside is conserved up to the
      failed Ps less the failed Vs. */
  lemma {:induction false} Conservation(evs: seq<Event>)
    ensures var s := Exec(evs);
            0 <= s.sem && s.sem + Inside(s.child) + Inside(s.parent) == 1 + Balance(evs)
  {
    if evs != [] {
      Conservation(evs[..|evs| - 1]);
    }
  }

  /** Exclusion does rest on P succeeding, because its result is ignored: one failure is enough for
      a mixed block. */
  lemma FailureBreaksExclusion() returns (evs: seq<Event>)
    ensures Exec(evs).child == Half && Exec(evs).parent == Half && Exec(evs).out == "AB"
    ensures |evs| == 4 && forall i :: 0 <= i < 4 ==> (evs[i].fails <==> i == 2)
  {
    evs := [Event(Child, false), Event(Child, false), Event(Parent, true), Event(Parent, false)];
    assert evs[..3] == [Event(Child, false), Event(Child, false), Event(Parent, true)];
    assert evs[..3][..2] == [Event(Child, false), Event(Child, false)];
    assert evs[..3][..2][..1] == [Event(Child, false)];
    assert Exec(evs[..3][..2][..1]) == State(0, Entered, Outside, "", "");
    assert Exec(evs[..3][..2]) == State(0, Half, Outside, "A", "");
    assert Exec(evs[..3]) == State(0, Half, Entered, "A", "");
  }

  // ----- each process gets its turn

  /** P lets a process in exactly when the value is positive, and takes one off it. */
  lemma EntersIff(s: State, w: Who)
    requires s.Pc(w).Outside?
    ensures var s' := Step(s, w, false);
            && (s'.Pc(w).Entered? <==> s.sem > 0) && (s.sem <= 0 ==> s' == s)
            && (s.sem > 0 ==> s'.sem == s.sem - 1)
            && s'.Pc(Other(w)) == s.Pc(Other(w)) && s'.out == s.out
  {
  }

  /** Steps without a failure. */
  function RunFrom(s: State, ws: seq<Who>): State
    decreases |ws|
  {
    if ws == [] then s else RunFrom(Step(s, ws[0], false), ws[1..])
  }

  /** Four steps of a process that finds the semaphore free: in, its letter twice, and out. */
  lemma WholeTurn(s: State, w: Who)
    requires Inv(s) && s.sem == 1
    ensures var s' := RunFrom(s, [w, w, w, w]);
            && s'.sem == 1 && s'.child.Outside? && s'.parent.Outside?
            && s'.out == s.out + (if w.Child? then "AA" else "BB")
  {
    var s1 := Step(s, w, false);
    var s2 := Step(s1, w, false);
    var s3 := Step(s2, w, false);
    var s4 := Step(s3, w, false);
    FirstStep(s3, w, []);
    FirstStep(s2, w, [w]);
    FirstStep(s1, w, [w, w]);
    FirstStep(s, w, [w, w, w]);
    assert s4.out == s.out + [Letter(w)] + [Letter(w)] == s.out + [Letter(w), Letter(w)];
  }

  lemma FirstStep(s: State, w: Who, ws: seq<Who>)
    ensures RunFrom(s, [w] + ws) == RunFrom(Step(s, w, false), ws)
    ensures ws == [] ==> [w] + ws == [w]
    ensures ws == [w] ==> [w] + ws == [w, w]
    ensures ws == [w, w] ==> [w] + ws == [w, w, w]
    ensures ws == [w, w, w] ==> [w] + ws == [w, w, w, w]
  {
    assert ([w] + ws)[1..] == ws;
  }

  /** How many steps a process needs to be outside again. */
  function StepsOut(pc: Pc): nat {
    match pc case Outside => 0 case Entered => 3 case Half => 2 case Full => 1
  }

  /** From every state of a run without failures, a process that is outside gets in after at most
      three steps of the other one and one of its own. */
  lemma {:induction false} GetsIn(s: State, w: Who) returns (ws: seq<Who>)
    requires Inv(s) && s.sem + Inside(s.child) + Inside(s.parent) == 1 && s.Pc(w).Outside?
    ensures RunFrom(s, ws).Pc(w).Entered? && |ws| <= StepsOut(s.Pc(Other(w))) + 1
    decreases StepsOut(s.Pc(Other(w)))
  {
    var first := if s.Pc(Other(w)).Outside? then w else Other(w);
    var s' := Step(s, first, false);
    if first == w {
      FirstStep(s, w, []);
      ws := [w];
    } else {
      StepKeepsInv(s, Event(first, false));
      var rest := GetsIn(s', w);
      FirstStep(s, first, rest);
      ws := [first] + rest;
    }
  }
}
