/** The one-slot shared memory between producer and customer, src/process_interactive.c lines 8-123.

    The two processes are a transition system with arbitrary interleaving.  Every access to the
    shared memory is one step; copying the text is one step too.  Memory is sequentially
    consistent, and the lines that fgets yields are chosen by the environment. */
module SharedSlot {

  const TEXT_SZ: nat := 2048

  /** strncpy keeps at most TEXT_SZ characters. */
  function Cut(line: string): string {
    if |line| <= TEXT_SZ then line else line[..TEXT_SZ]
  }

  lemma CutIs(line: string)
    ensures Cut(line) <= line && |Cut(line)| == if |line| > 2048 then 2048 else |line|
  {
  }

  function CutAll(lines: seq<string>): (r: seq<string>)
    ensures |r| == |lines|
    ensures forall i :: 0 <= i < |lines| ==> r[i] == Cut(lines[i])
  {
    seq(|lines|, i requires 0 <= i < |lines| => Cut(lines[i]))
  }

  /** strncmp(line, "end", 3) == 0 */
  predicate Ends(line: string) {
    "end" <= line
  }

  /** Whatever comes behind the three letters, a line break included. */
  lemma EndsIff(line: string)
    ensures Ends(line) <==> |line| >= 3 && line[0] == 'e' && line[1] == 'n' && line[2] == 'd'
  {
  }

  datatype Producer =
    | Wait                  // line 38
    | Read                  // line 44
    | Copy(line: string)    // line 45
    | Raise(line: string)   // line 46
    | Test(line: string)    // line 47
    | Finished              // line 53

  datatype Customer =
    | Reset                 // line 90
    | Check                 // line 95
    | Print                 // line 97
    | Release               // line 99
    | Compare               // line 100
    | Stopped               // line 107

  /** `written` and `printed` record what was copied into the slot and what was printed. */
  datatype State = State(flag: bool, text: string, prod: Producer, cust: Customer,
                         written: seq<string>, printed: seq<string>)

  /** The producer's next step; `line` is what fgets would return. */
  function ProducerStep(s: State, line: string): State {
    match s.prod
    case Wait => if s.flag then s else s.(prod := Read)
    case Read => s.(prod := Copy(line))
    case Copy(l) => s.(text := Cut(l), prod := Raise(l), written := s.written + [l])
    case Raise(l) => s.(flag := true, prod := Test(l))
    case Test(l) => s.(prod := if Ends(l) then Finished else Wait)
    case Finished => s
  }

  function CustomerStep(s: State): State {
    match s.cust
    case Reset => s.(flag := false, cust := Check)
    case Check => if s.flag then s.(cust := Print) else s
    case Print => s.(printed := s.printed + [s.text], cust := Release)
    case Release => s.(flag := false, cust := Compare)
    case Compare => s.(cust := if Ends(s.text) then Stopped else Check)
    case Stopped => s
  }

  ghost predicate Next(s: State, s': State) {
    s' == CustomerStep(s) || exists line :: s' == ProducerStep(s, line)
  }

  /** Both processes at the top of their loops, after the customer's reset; the slot may hold the
      text of an earlier session. */
  ghost predicate Init(s: State) {
    !s.flag && s.prod == Wait && s.cust == Check && s.written == [] && s.printed == []
  }

  ghost predicate Behaviour(tr: seq<State>) {
    && tr != []
    && forall i :: 0 <= i < |tr| - 1 ==> Next(tr[i], tr[i + 1])
  }

  ghost predicate Run(tr: seq<State>) {
    Behaviour(tr) && Init(tr[0])
  }

  // ----- the invariant

  /** What was written but not yet printed. */
  function Behind(s: State): int {
    |s.written| - |s.printed|
  }

  ghost predicate PrefixInv(s: State) {
    && 0 <= Behind(s) <= 1
    && s.printed == CutAll(s.written)[..|s.printed|]
    && (s.written != [] ==> s.text == Cut(s.written[|s.written| - 1]))
  }

  ghost predicate FlagInv(s: State) {
    && (s.cust.Print? || s.cust.Release? ==> s.flag)
    && (s.prod.Read? || s.prod.Copy? || s.prod.Raise? ==> !s.flag)
    && !s.cust.Reset?
    && (s.flag ==> (Behind(s) == 0 <==> s.cust.Release?))
    && (!s.flag ==> (Behind(s) == 1 <==> s.prod.Raise?))
    && (s.flag || s.cust.Compare? || s.cust.Stopped? ==> s.written != [])
  }

  ghost predicate EndInv(s: State) {
    && (forall i :: 0 <= i < |s.written| - 1 ==> !Ends(s.written[i]))
    && (s.prod.Raise? || s.prod.Test? ==> s.written != [] && s.prod.line == s.written[|s.written| - 1])
    && (s.written != [] ==> (Ends(s.written[|s.written| - 1]) <==> EndSent(s.prod)))
    && (s.written == [] ==> !s.prod.Finished?)
    && (s.cust.Stopped? ==> Ends(s.text))
    && (s.cust.Check? && Behind(s) == 0 && s.written != [] ==> !Ends(s.text))
  }

  predicate EndSent(p: Producer) {
    p.Finished? || ((p.Raise? || p.Test?) && Ends(p.line))
  }

  ghost predicate Inv(s: State) {
    PrefixInv(s) && FlagInv(s) && EndInv(s)
  }

  lemma EndsCut(line: string)
    ensures Ends(Cut(line)) <==> Ends(line)
  {
  }

  lemma CutAllSnoc(lines: seq<string>, line: string)
    ensures CutAll(lines + [line]) == CutAll(lines) + [Cut(line)]
  {
  }

  lemma ProducerKeepsPrefix(s: State, line: string)
    requires Inv(s)
    ensures PrefixInv(ProducerStep(s, line))
  {
    if s.prod.Copy? {
      CutAllSnoc(s.written, s.prod.line);
      assert |s.printed| == |s.written|;
    }
  }

  lemma ProducerKeepsEnd(s: State, line: string)
    requires Inv(s)
    ensures EndInv(ProducerStep(s, line))
  {
    var s' := ProducerStep(s, line);
    if s.prod.Copy? {
      EndsCut(s.prod.line);
      assert s'.written == s.written + [s.prod.line] && s'.written[|s.written|] == s.prod.line;
      assert s.written != [] ==> !Ends(s.written[|s.written| - 1]);
    } else {
      assert s'.written == s.written && s'.text == s.text;
    }
  }

  lemma ProducerKeepsInv(s: State, line: string)
    requires Inv(s)
    ensures Inv(ProducerStep(s, line))
  {
    ProducerKeepsPrefix(s, line);
    ProducerKeepsEnd(s, line);
  }

  lemma CustomerKeepsInv(s: State)
    requires Inv(s)
    ensures Inv(CustomerStep(s))
  {
    if s.written != [] {
      EndsCut(s.written[|s.written| - 1]);
    }
    CustomerKeepsPrefix(s);
  }

  lemma CustomerKeepsPrefix(s: State)
    requires Inv(s)
    ensures PrefixInv(CustomerStep(s))
  {
    var s' := CustomerStep(s);
    if s.cust.Print? {
      assert |s.printed| + 1 == |s.written| && s.text == CutAll(s.written)[|s.printed|];
      assert s'.printed == CutAll(s.written)[..|s.printed| + 1];
    } else {
      assert s'.printed == s.printed;
    }
  }

  /** Whatever either process does next. */
  lemma NextKeepsInv(s: State, s': State)
    requires Inv(s) && Next(s, s')
    ensures Inv(s')
  {
    CustomerKeepsInv(s);
    if s' != CustomerStep(s) {
      var line :| s' == ProducerStep(s, line);
      ProducerKeepsInv(s, line);
    }
  }

  lemma LastNext(tr: seq<State>)
    requires Behaviour(tr) && |tr| > 1
    ensures Behaviour(tr[..|tr| - 1]) && Next(tr[|tr| - 2], tr[|tr| - 1])
  {
  }

  lemma {:induction false} BehavioursKeepInv(tr: seq<State>)
    requires Behaviour(tr) && Inv(tr[0])
    ensures Inv(tr[|tr| - 1])
    decreases |tr|
  {
    if |tr| > 1 {
      LastNext(tr);
      BehavioursKeepInv(tr[..|tr| - 1]);
      NextKeepsInv(tr[|tr| - 2], tr[|tr| - 1]);
    }
  }

  lemma RunsKeepInv(tr: seq<State>)
    requires Run(tr)
    ensures Inv(tr[|tr| - 1])
  {
    BehavioursKeepInv(tr);
  }

  // ----- what it means

  /** In every interleaving the printed messages are the written ones, each cut to TEXT_SZ, in
      order, without loss or duplicate, and at most one behind. */
  lemma NoLossNoDuplicate(tr: seq<State>)
    requires Run(tr)
    ensures var s := tr[|tr| - 1]; s.printed <= CutAll(s.written) && |s.written| <= |s.printed| + 1
  {
    RunsKeepInv(tr);
  }

  /** When the customer stops, everything has been printed except possibly the final end message;
      that one is missed exactly when the producer has filled the slot again. */
  lemma AllPrintedAtStop(tr: seq<State>)
    requires Run(tr) && tr[|tr| - 1].cust.Stopped?
    ensures var s := tr[|tr| - 1];
            && s.written != [] && Ends(s.written[|s.written| - 1])
            && (s.printed == CutAll(s.written) || s.printed == CutAll(s.written[..|s.written| - 1]))
            && (s.printed == CutAll(s.written) <==> !s.flag && !s.prod.Raise?)
  {
    var s := tr[|tr| - 1];
    RunsKeepInv(tr);
    EndsCut(s.written[|s.written| - 1]);
    assert CutAll(s.written)[..|s.written| - 1] == CutAll(s.written[..|s.written| - 1]);
  }

  /** Once the customer has stopped, the producer writes nothing more. */
  lemma NothingAfterStop(tr: seq<State>, line: string)
    requires Run(tr) && tr[|tr| - 1].cust.Stopped?
    ensures ProducerStep(tr[|tr| - 1], line).written == tr[|tr| - 1].written
  {
    var s := tr[|tr| - 1];
    RunsKeepInv(tr);
    EndsCut(s.written[|s.written| - 1]);
  }

  /** The processes never block each other for good: until both have stopped, some step changes
      the state. */
  lemma NoDeadlock(tr: seq<State>)
    requires Run(tr)
    ensures var s := tr[|tr| - 1];
            (s.prod.Finished? && s.cust.Stopped?) || exists s' :: Next(s, s') && s' != s
  {
    var s := tr[|tr| - 1];
    RunsKeepInv(tr);
    if s.written != [] {
      EndsCut(s.written[|s.written| - 1]);
    }
    if CustomerStep(s) != s {
      assert Next(s, CustomerStep(s));
    } else if ProducerStep(s, "") != s {
      assert Next(s, ProducerStep(s, ""));
    }
  }

  /** The end message can indeed be missed: the test at line 100 reads the slot after it was
      released at line 99, when the producer may already have put the end message there. */
  lemma EndCanBeMissed() returns (tr: seq<State>)
    ensures Run(tr)
    ensures var s := tr[|tr| - 1];
            s.cust.Stopped? && s.prod.Finished? && s.written == ["a", "end"] && s.printed == ["a"]
  {
    var s0 := State(false, "", Wait, Check, [], []);
    var s1 := Written(s0, "a");
    var s2 := ProducerStep(s1, "");
    var c1 := CustomerStep(s2);
    var c2 := CustomerStep(c1);
    var c3 := CustomerStep(c2);
    var p1 := ProducerStep(c3, "");
    var p2 := ProducerStep(p1, "end");
    var p3 := ProducerStep(p2, "");
    var p4 := ProducerStep(p3, "");
    var p5 := ProducerStep(p4, "");
    var c4 := CustomerStep(p5);
    tr := Turn(s0, "a") + [s2, c1, c2, c3, p1, p2, p3, p4, p5, c4];
  }

  /** The states of one turn of the producer, up to the raised flag. */
  function Turn(s: State, line: string): seq<State> {
    var a := ProducerStep(s, "");
    var b := ProducerStep(a, line);
    var c := ProducerStep(b, "");
    [s, a, b, c, ProducerStep(c, "")]
  }

  function Written(s: State, line: string): State {
    Turn(s, line)[4]
  }

  // ----- started before the customer's reset

  /** The customer has yet to reset the slot, which holds anything from an earlier session. */
  ghost predicate BeforeReset(s: State) {
    s.prod == Wait && s.cust == Reset && s.written == [] && s.printed == []
  }

  /** Before the reset, the producer gets at most one message into the slot. */
  ghost predicate ResetInv(s: State) {
    && s.cust == Reset && s.printed == [] && |s.written| <= 1
    && (s.written == [] ==> s.prod.Wait? || (!s.flag && (s.prod.Read? || s.prod.Copy?)))
    && (s.written != [] ==> s.text == Cut(s.written[0]) && (s.flag <==> !s.prod.Raise?))
    && (s.written != [] ==> !s.prod.Read? && !s.prod.Copy?)
    && (s.prod.Raise? || s.prod.Test? ==> s.written != [] && s.prod.line == s.written[0])
    && (s.written != [] ==> (Ends(s.written[0]) <==> EndSent(s.prod)))
  }

  lemma NextUnlessReset(s: State, s': State)
    requires Next(s, s') && s'.cust.Reset?
    ensures s.cust.Reset? && exists line :: s' == ProducerStep(s, line)
  {
  }

  lemma {:induction false} UntilReset(tr: seq<State>)
    requires Behaviour(tr) && BeforeReset(tr[0]) && tr[|tr| - 1].cust.Reset?
    ensures ResetInv(tr[|tr| - 1])
    decreases |tr|
  {
    if |tr| > 1 {
      var s, s' := tr[|tr| - 2], tr[|tr| - 1];
      NextUnlessReset(s, s');
      UntilReset(tr[..|tr| - 1]);
    }
  }

  /** The reset is harmless exactly when it does not take down a flag that the producer raised. */
  lemma ResetHarmlessIff(tr: seq<State>)
    requires Behaviour(tr) && BeforeReset(tr[0]) && tr[|tr| - 1].cust.Reset?
    ensures var s := tr[|tr| - 1]; Inv(CustomerStep(s)) <==> (s.flag ==> s.written == [])
    ensures !tr[0].flag ==> var s := tr[|tr| - 1]; Inv(CustomerStep(s)) <==> !s.flag
  {
    UntilReset(tr);
    if !tr[0].flag {
      RaisedIsWritten(tr);
    }
    if tr[|tr| - 1].written != [] {
      EndsCut(tr[|tr| - 1].written[0]);
    }
  }

  lemma {:induction false} RaisedIsWritten(tr: seq<State>)
    requires Behaviour(tr) && BeforeReset(tr[0]) && tr[|tr| - 1].cust.Reset? && !tr[0].flag
    ensures tr[|tr| - 1].flag ==> tr[|tr| - 1].written != []
    decreases |tr|
  {
    if |tr| > 1 {
      NextUnlessReset(tr[|tr| - 2], tr[|tr| - 1]);
      RaisedIsWritten(tr[..|tr| - 1]);
      UntilReset(tr[..|tr| - 1]);
    }
  }

  /** After a harmless reset, the session keeps what it would keep if it had started there. */
  lemma NothingLost(tr: seq<State>, rest: seq<State>)
    requires Behaviour(tr) && BeforeReset(tr[0]) && tr[|tr| - 1].cust.Reset?
    requires tr[|tr| - 1].flag ==> tr[|tr| - 1].written == []
    requires Behaviour(rest) && rest[0] == CustomerStep(tr[|tr| - 1])
    ensures var s := rest[|rest| - 1];
            Inv(s) && s.printed <= CutAll(s.written) && |s.written| <= |s.printed| + 1
  {
    ResetHarmlessIff(tr);
    BehavioursKeepInv(rest);
  }

  // What was lost stays lost: apart from its first message, the session goes on as any other.

  function Forgetting(s: State): State
    requires s.written != []
  {
    s.(written := s.written[1..])
  }

  ghost predicate Lost(s: State) {
    s.written != [] && PrefixInv(Forgetting(s)) && FlagInv(Forgetting(s))
  }

  lemma ProducerKeepsLost(s: State, line: string)
    requires Lost(s)
    ensures Lost(ProducerStep(s, line))
  {
    var s' := ProducerStep(s, line);
    if s.prod.Copy? {
      CutAllSnoc(s.written[1..], s.prod.line);
      assert s'.written[1..] == s.written[1..] + [s.prod.line];
    }
  }

  lemma CustomerKeepsLost(s: State)
    requires Lost(s)
    ensures Lost(CustomerStep(s))
  {
  }

  lemma {:induction false} StaysLost(tr: seq<State>)
    requires Behaviour(tr) && Lost(tr[0])
    ensures Lost(tr[|tr| - 1])
    decreases |tr|
  {
    if |tr| > 1 {
      var s, s' := tr[|tr| - 2], tr[|tr| - 1];
      LastNext(tr);
      StaysLost(tr[..|tr| - 1]);
      CustomerKeepsLost(s);
      if s' != CustomerStep(s) {
        var line :| s' == ProducerStep(s, line);
        ProducerKeepsLost(s, line);
      }
    }
  }

  /** After a reset that took down a raised flag, the first message is never printed: what is
      printed are the messages after it. */
  lemma FirstMessageLost(tr: seq<State>, rest: seq<State>)
    requires Behaviour(tr) && BeforeReset(tr[0]) && tr[|tr| - 1].cust.Reset?
    requires tr[|tr| - 1].flag && tr[|tr| - 1].written != []
    requires Behaviour(rest) && rest[0] == CustomerStep(tr[|tr| - 1])
    ensures var s := rest[|rest| - 1];
            s.written != [] && s.printed <= CutAll(s.written[1..]) && |s.written| <= |s.printed| + 2
  {
    UntilReset(tr);
    StaysLost(rest);
  }

  /** The customer waits for a flag that nobody will raise. */
  ghost predicate Hanging(s: State) {
    && s.cust == Check && !s.flag && s.printed == []
    && |s.written| == 1 && (s.prod.Finished? || (s.prod.Test? && Ends(s.prod.line)))
  }

  /** If the lost message is an end message, the producer finishes and the customer spins forever
      with nothing printed, in every continuation. */
  lemma {:induction false} LostEndHangs(tr: seq<State>, rest: seq<State>)
    requires Behaviour(tr) && BeforeReset(tr[0]) && tr[|tr| - 1].cust.Reset?
    requires var s := tr[|tr| - 1]; s.flag && s.written != [] && Ends(s.written[0])
    requires Behaviour(rest) && rest[0] == CustomerStep(tr[|tr| - 1])
    ensures var s := rest[|rest| - 1]; Hanging(s) && CustomerStep(s) == s
    ensures var s := rest[|rest| - 1]; s.prod.Finished? ==> forall s' :: Next(s, s') ==> s' == s
    decreases |rest|
  {
    UntilReset(tr);
    if |rest| > 1 {
      LostEndHangs(tr, rest[..|rest| - 1]);
      assert Next(rest[|rest| - 2], rest[|rest| - 1]);
    }
  }

  /** Started before the customer's reset, the producer loses its first message, so the guarantee
      does depend on that order. */
  lemma ResetCanLoseAMessage() returns (tr: seq<State>)
    ensures Behaviour(tr)
    ensures tr[0] == State(false, "", Wait, Reset, [], [])
    ensures var s := tr[|tr| - 1]; s.printed == ["b"] && s.written == ["a", "b"]
  {
    var s0 := State(false, "", Wait, Reset, [], []);
    var s1 := Written(s0, "a");
    var s2 := ProducerStep(s1, "");
    var s3 := CustomerStep(s2);
    var s4 := Written(s3, "b");
    var s5 := CustomerStep(s4);
    var s6 := CustomerStep(s5);
    tr := Turn(s0, "a") + [s2] + Turn(s3, "b") + [s5, s6];
  }

  // ----- a session in turns

  lemma Extended(tr: seq<State>, s: State)
    requires Behaviour(tr) && Next(tr[|tr| - 1], s)
    ensures Behaviour(tr + [s])
  {
  }

  /** One message through the slot, from a state in which both wait for it. */
  lemma OneMessage(tr: seq<State>, line: string) returns (tr': seq<State>)
    requires Behaviour(tr)
    requires var s := tr[|tr| - 1]; s.prod == Wait && s.cust == Check && !s.flag
    ensures Behaviour(tr') && tr'[0] == tr[0]
    ensures var s, s' := tr[|tr| - 1], tr'[|tr'| - 1];
            && s'.written == s.written + [line] && s'.printed == s.printed + [Cut(line)] && !s'.flag
            && s'.prod == (if Ends(line) then Finished else Wait)
            && s'.cust == (if Ends(line) then Stopped else Check)
  {
    EndsCut(line);
    tr' := ProducerSteps(tr, line);
    tr' := CustomerSteps(tr');
  }

  lemma ProducerSteps(tr: seq<State>, line: string) returns (tr': seq<State>)
    requires Behaviour(tr)
    requires var s := tr[|tr| - 1]; s.prod == Wait && !s.flag
    ensures Behaviour(tr') && tr'[0] == tr[0]
    ensures var s := tr[|tr| - 1];
            tr'[|tr'| - 1] == s.(flag := true, text := Cut(line), written := s.written + [line],
                                 prod := if Ends(line) then Finished else Wait)
  {
    var s := tr[|tr| - 1];
    var a := ProducerStep(s, line);
    var b := ProducerStep(a, line);
    var c := ProducerStep(b, line);
    var d := ProducerStep(c, line);
    var e := ProducerStep(d, line);
    Extended(tr, a);
    Extended(tr + [a], b);
    Extended(tr + [a] + [b], c);
    Extended(tr + [a] + [b] + [c], d);
    Extended(tr + [a] + [b] + [c] + [d], e);
    tr' := tr + [a] + [b] + [c] + [d] + [e];
  }

  lemma CustomerSteps(tr: seq<State>) returns (tr': seq<State>)
    requires Behaviour(tr)
    requires var s := tr[|tr| - 1]; s.cust == Check && s.flag
    ensures Behaviour(tr') && tr'[0] == tr[0]
    ensures var s := tr[|tr| - 1];
            tr'[|tr'| - 1] == s.(flag := false, printed := s.printed + [s.text],
                                 cust := if Ends(s.text) then Stopped else Check)
  {
    var s := tr[|tr| - 1];
    var a := CustomerStep(s);
    var b := CustomerStep(a);
    var c := CustomerStep(b);
    var d := CustomerStep(c);
    Extended(tr, a);
    Extended(tr + [a], b);
    Extended(tr + [a] + [b], c);
    Extended(tr + [a] + [b] + [c], d);
    tr' := tr + [a] + [b] + [c] + [d];
  }

  /** Any lines of which only the last one begins with "end" can go through the slot: everything is
      printed, each line cut to 2048 characters, and both processes come to their end. */
  lemma {:induction false} Session(s: State, lines: seq<string>) returns (tr: seq<State>)
    requires Init(s)
    requires forall i :: 0 <= i < |lines| - 1 ==> !Ends(lines[i])
    ensures Run(tr) && tr[0] == s
    ensures var r := tr[|tr| - 1];
            && r.written == lines && r.printed == CutAll(lines) && !r.flag
            && if lines != [] && Ends(lines[|lines| - 1]) then r.prod == Finished && r.cust == Stopped
               else r.prod == Wait && r.cust == Check
    decreases |lines|
  {
    if lines == [] {
      tr := [s];
    } else {
      var n := |lines| - 1;
      tr := Session(s, lines[..n]);
      tr := OneMessage(tr, lines[n]);
      CutAllSnoc(lines[..n], lines[n]);
      assert lines == lines[..n] + [lines[n]];
    }
  }
}
