/** Whole runs of the command protocol: messages are installed (lines 250-283), frames of any
    budgets are sent, and on the other side the fragments are reassembled. */
module CmdSession {
  import opened CmdPdu
  import opened CmdTransmit
  import opened CmdReassembly

  type CmdType = t: nat | t < MAX_CMD_TYPE
  type Message = m: seq<UINT8> | 1 <= |m| <= HELLO_LEN witness [0]

  /** A new message is accepted only when nothing is pending; it fills the start of the buffer. */
  function Indata(b: TxBuf, msg: Message): TxBuf {
    if b.len == 0 then
      var h := b.hdr.(firstpkg := true, fragment := false, index := (b.hdr.index + 1) % 64, sublen := 0);
      TxBuf(|msg|, h, msg + if |msg| < |b.data| then b.data[|msg|..] else [])
    else b
  }

  // ----- the history of one type

  /** The messages installed so far and, for each, the fragments sent so far. */
  datatype Hist = Hist(msgs: seq<seq<UINT8>>, sent: seq<seq<Pdu>>)

  function Extend(h: Hist, ps: seq<Pdu>): Hist {
    if ps == [] || h.sent == [] then h
    else h.(sent := h.sent[|h.sent| - 1 := h.sent[|h.sent| - 1] + ps])
  }

  /** The headers of the fragments of message number j (counted from 1): one index for all of
      them, `firstpkg` on exactly the first. */
  ghost predicate Headers(t: nat, j: nat, ps: seq<Pdu>) {
    forall i :: 0 <= i < |ps| ==>
      && ps[i].hdr.pduType == t
      && ps[i].hdr.index == j % 64
      && (ps[i].hdr.firstpkg <==> i == 0)
      && ps[i].payload != []
  }

  /** As meant: the payloads are consecutive pieces of m, the length fields are right, and
      `fragment` says whether more is to come. */
  ghost predicate MeantBody(m: seq<UINT8>, ps: seq<Pdu>) {
    && Concat(ps) <= m
    && (forall i :: 0 <= i < |ps| ==> ps[i].Sized())
    && (forall i :: 0 <= i < |ps| ==> (ps[i].hdr.fragment <==> i < |ps| - 1 || |Concat(ps)| < |m|))
  }

  /** As written: every payload is taken from the start of m again, and each header describes the
      fragment before. */
  ghost predicate WrittenBody(m: seq<UINT8>, ps: seq<Pdu>) {
    forall i :: 0 <= i < |ps| ==>
      && ps[i].payload <= m
      && ps[i].hdr.sublen == SizeBefore(ps, i)
      && (ps[i].hdr.fragment <==> i > 0)
  }

  /** What `sublen` holds before fragment i is sent: the size of the fragment before, or the 0 of
      a new message. */
  function SizeBefore(ps: seq<Pdu>, i: nat): nat
    requires i <= |ps|
  {
    if i == 0 then 0 else CMD_HDR_LEN + |ps[i - 1].payload|
  }

  ghost predicate Body(o: Order, m: seq<UINT8>, ps: seq<Pdu>) {
    match o
    case AsWritten => WrittenBody(m, ps)
    case AsMeant => MeantBody(m, ps)
  }

  /** The buffer in the middle of message m with the fragments ps behind it. */
  ghost predicate Current(o: Order, b: TxBuf, m: seq<UINT8>, ps: seq<Pdu>) {
    && b.Valid() && |Concat(ps)| + b.len == |m|
    && (b.hdr.firstpkg <==> ps == [])
    && match o
       case AsWritten => m <= b.data && b.hdr.sublen == SizeBefore(ps, |ps|)
                      && (b.len > 0 ==> (b.hdr.fragment <==> ps != []))
       case AsMeant => m[|m| - b.len..] == b.data[..b.len]
  }

  /** Message number j + 1 and its fragments; `all` says that every byte of it has been sent. */
  ghost predicate MessageOk(o: Order, t: nat, j: nat, m: seq<UINT8>, ps: seq<Pdu>, all: bool) {
    && 1 <= |m| <= HELLO_LEN && Headers(t, j + 1, ps) && Body(o, m, ps)
    && (all ==> |Concat(ps)| == |m|)
  }

  ghost predicate AllOk(o: Order, t: nat, ms: seq<seq<UINT8>>, ss: seq<seq<Pdu>>)
    requires |ms| == |ss|
  {
    forall j :: 0 <= j < |ms| ==> MessageOk(o, t, j, ms[j], ss[j], j < |ms| - 1)
  }

  /** No message was replaced before all its bytes had been sent; its headers are right; `index`
      counts messages modulo 64. */
  ghost predicate TypeInv(o: Order, t: nat, b: TxBuf, h: Hist) {
    var n := |h.msgs|;
    && |h.sent| == n
    && b.Valid() && b.hdr.pduType == t && b.hdr.index == n % 64
    && AllOk(o, t, h.msgs, h.sent)
    && if n == 0 then b.len == 0 && b.hdr.firstpkg else Current(o, b, h.msgs[n - 1], h.sent[n - 1])
  }

  lemma OkAdded(o: Order, t: nat, ms: seq<seq<UINT8>>, ss: seq<seq<Pdu>>, m: seq<UINT8>)
    requires |ms| == |ss| && AllOk(o, t, ms, ss)
    requires ms != [] ==> |Concat(ss[|ss| - 1])| == |ms[|ss| - 1]|
    requires MessageOk(o, t, |ms|, m, [], false)
    ensures AllOk(o, t, ms + [m], ss + [[]])
  {
    forall j | 0 <= j < |ms|
      ensures MessageOk(o, t, j, ms[j], ss[j], true)
    {
      assert MessageOk(o, t, j, ms[j], ss[j], j < |ms| - 1);
    }
  }

  lemma OkReplaced(o: Order, t: nat, ms: seq<seq<UINT8>>, ss: seq<seq<Pdu>>, ps: seq<Pdu>)
    requires |ms| == |ss| > 0 && AllOk(o, t, ms, ss)
    requires MessageOk(o, t, |ms| - 1, ms[|ms| - 1], ps, false)
    ensures AllOk(o, t, ms, ss[|ss| - 1 := ps])
  {
  }

  lemma LastAdded(o: Order, t: nat, b: TxBuf, h: Hist, m: seq<UINT8>, b': TxBuf)
    requires TypeInv(o, t, b, h) && b.len == 0
    requires b'.hdr.pduType == t && b'.hdr.index == (|h.msgs| + 1) % 64
    requires Current(o, b', m, []) && MessageOk(o, t, |h.msgs|, m, [], false)
    ensures TypeInv(o, t, b', Hist(h.msgs + [m], h.sent + [[]]))
  {
    OkAdded(o, t, h.msgs, h.sent, m);
  }

  lemma LastReplaced(o: Order, t: nat, b: TxBuf, h: Hist, ps: seq<Pdu>, b': TxBuf, h': Hist)
    requires TypeInv(o, t, b, h) && h.msgs != []
    requires h' == Hist(h.msgs, h.sent[|h.sent| - 1 := ps])
    requires b'.hdr.pduType == b.hdr.pduType && b'.hdr.index == b.hdr.index
    requires Current(o, b', h.msgs[|h.msgs| - 1], ps)
    requires MessageOk(o, t, |h.msgs| - 1, h.msgs[|h.msgs| - 1], ps, false)
    ensures TypeInv(o, t, b', h')
  {
    OkReplaced(o, t, h.msgs, h.sent, ps);
  }

  lemma IndataCurrent(o: Order, t: nat, j: nat, b: TxBuf, msg: Message)
    requires b.Valid() && b.len == 0
    ensures Current(o, Indata(b, msg), msg, []) && MessageOk(o, t, j, msg, [], false)
  {
  }

  lemma IndataIndex(b: TxBuf, msg: Message, n: nat)
    requires b.len == 0 && b.hdr.index == n % 64
    ensures Indata(b, msg).hdr.index == (n + 1) % 64 && Indata(b, msg).hdr.pduType == b.hdr.pduType
  {
    var q, r := n / 64, n % 64;
    assert n + 1 == 64 * q + (r + 1);
  }

  /** A message that finds bytes of the one before pending is not taken. */
  function Offered(h: Hist, msg: seq<UINT8>, busy: bool): Hist {
    if busy then h else Hist(h.msgs + [msg], h.sent + [[]])
  }

  lemma IndataInv(o: Order, t: nat, b: TxBuf, h: Hist, msg: Message)
    requires TypeInv(o, t, b, h)
    ensures TypeInv(o, t, Indata(b, msg), Offered(h, msg, b.len > 0))
  {
    if b.len == 0 {
      IndataCurrent(o, t, |h.msgs|, b, msg);
      IndataIndex(b, msg, |h.msgs|);
      LastAdded(o, t, b, h, msg, Indata(b, msg));
    }
  }

  lemma ConcatSnoc(ps: seq<Pdu>, p: Pdu)
    ensures Concat(ps + [p]) == Concat(ps) + p.payload
  {
    assert (ps + [p])[..|ps|] == ps;
  }

  /** One more fragment of the current message. */
  lemma FragmentWritten(b: TxBuf, m: seq<UINT8>, ps: seq<Pdu>, n: nat, p: Pdu, b': TxBuf)
    requires Current(AsWritten, b, m, ps) && WrittenBody(m, ps)
    requires 0 < n <= b.len && Fragment(AsWritten, b, n) == (p, b')
    ensures Current(AsWritten, b', m, ps + [p]) && WrittenBody(m, ps + [p])
  {
    ConcatSnoc(ps, p);
    WrittenSnoc(m, ps, p);
    assert (ps + [p])[|ps|] == p;
  }

  lemma WrittenSnoc(m: seq<UINT8>, ps: seq<Pdu>, p: Pdu)
    requires WrittenBody(m, ps)
    requires p.payload <= m && p.hdr.sublen == SizeBefore(ps, |ps|) && (p.hdr.fragment <==> ps != [])
    ensures WrittenBody(m, ps + [p])
  {
    var qs := ps + [p];
    forall i | 0 <= i < |qs|
      ensures qs[i].payload <= m && qs[i].hdr.sublen == SizeBefore(qs, i) && (qs[i].hdr.fragment <==> i > 0)
    {
      assert SizeBefore(qs, i) == SizeBefore(ps, i);
    }
  }

  lemma FragmentMeant(b: TxBuf, m: seq<UINT8>, ps: seq<Pdu>, n: nat, p: Pdu, b': TxBuf)
    requires Current(AsMeant, b, m, ps) && MeantBody(m, ps) && 0 < n <= b.len && Fragment(AsMeant, b, n) == (p, b')
    ensures Current(AsMeant, b', m, ps + [p]) && MeantBody(m, ps + [p])
  {
    ConcatSnoc(ps, p);
    var k := |m| - b.len;
    assert Concat(ps) == m[..k];
    assert p.payload == m[k..][..n] == m[k..k + n];
    assert m[..k] + m[k..k + n] == m[..k + n];
    assert b'.data[..b'.len] == m[k..][n..];
  }

  lemma FragmentInv(o: Order, t: nat, b: TxBuf, h: Hist, n: nat, p: Pdu, b': TxBuf)
    requires TypeInv(o, t, b, h) && 0 < n <= b.len && Fragment(o, b, n) == (p, b')
    ensures TypeInv(o, t, b', Extend(h, [p]))
  {
    var k := |h.msgs| - 1;
    assert MessageOk(o, t, k, h.msgs[k], h.sent[k], false);
    FragmentCurrent(o, t, k, b, h.msgs[k], h.sent[k], n, p, b');
    LastReplaced(o, t, b, h, h.sent[k] + [p], b', Extend(h, [p]));
  }

  lemma FragmentCurrent(o: Order, t: nat, k: nat, b: TxBuf, m: seq<UINT8>, ps: seq<Pdu>, n: nat, p: Pdu, b': TxBuf)
    requires Current(o, b, m, ps) && MessageOk(o, t, k, m, ps, false)
    requires b.hdr.pduType == t && b.hdr.index == (k + 1) % 64
    requires 0 < n <= b.len && Fragment(o, b, n) == (p, b')
    ensures Current(o, b', m, ps + [p]) && MessageOk(o, t, k, m, ps + [p], false)
    ensures b'.hdr.pduType == b.hdr.pduType && b'.hdr.index == b.hdr.index
  {
    match o
    case AsWritten => FragmentWritten(b, m, ps, n, p, b');
    case AsMeant => FragmentMeant(b, m, ps, n, p, b');
  }

  // ----- sender and receiver together

  datatype Action = Install(t: CmdType, msg: Message) | Send(budget: UINT32)

  /** The send buffers, what was done with each type, every fragment sent so far in order, and the
      receive buffers on the other side. */
  datatype State = State(bufs: seq<TxBuf>, hists: seq<Hist>, log: seq<Pdu>, rx: seq<RxState>) {
    ghost predicate Shape() {
      AllValid(bufs) && |bufs| == |hists| == |rx| == MAX_CMD_TYPE
    }
  }

  /** The receiver takes the fragments off a frame one by one and combines each before it looks at
      the next header; it stops at a header that it cannot act on. */
  function Deliver(rx: seq<RxState>, bytes: seq<UINT8>): (r: seq<RxState>)
    requires |rx| == MAX_CMD_TYPE
    ensures |r| == |rx|
  {
    RunAll(rx, Leading(bytes))
  }

  function Record(hists: seq<Hist>, frame: seq<Pdu>): (r: seq<Hist>)
    ensures |r| == |hists|
    ensures forall t :: 0 <= t < |r| ==> r[t] == Extend(hists[t], OfType(frame, t))
  {
    seq(|hists|, t requires 0 <= t < |hists| => Extend(hists[t], OfType(frame, t)))
  }

  function Step(o: Order, s: State, a: Action): (s': State)
    requires s.Shape()
    ensures s'.Shape()
  {
    match a
    case Install(t, msg) =>
      s.(bufs := s.bufs[t := Indata(s.bufs[t], msg)],
         hists := s.hists[t := Offered(s.hists[t], msg, s.bufs[t].len > 0)])
    case Send(budget) =>
      var r := Tx(o, budget, s.bufs);
      State(r.bufs, Record(s.hists, r.frame), s.log + r.frame, Deliver(s.rx, Serialize(r.frame)))
  }

  /** cmd_buf_init: one empty buffer for each type on either side. */
  function Init(data: seq<seq<UINT8>>): (s: State)
    requires |data| == MAX_CMD_TYPE
    ensures s.Shape()
  {
    State(seq(MAX_CMD_TYPE, t requires 0 <= t < MAX_CMD_TYPE => TxBuf(0, CmdHdr(t, true, false, 0, 0), data[t])),
          seq(MAX_CMD_TYPE, t => Hist([], [])), [],
          seq(MAX_CMD_TYPE, t requires 0 <= t < MAX_CMD_TYPE => InitState(t)))
  }

  /** The state after a run, which may interleave the types and vary the budgets at will. */
  function Exec(o: Order, s: State, acts: seq<Action>): (s': State)
    requires s.Shape()
    ensures s'.Shape()
  {
    if acts == [] then s else Step(o, Exec(o, s, acts[..|acts| - 1]), acts[|acts| - 1])
  }

  // ----- what every run keeps

  function Flatten(ss: seq<seq<Pdu>>): seq<Pdu> {
    if ss == [] then [] else Flatten(ss[..|ss| - 1]) + ss[|ss| - 1]
  }

  ghost predicate SenderInv(o: Order, s: State) {
    && s.Shape() && Typed(s.log, MAX_CMD_TYPE)
    && forall t :: 0 <= t < MAX_CMD_TYPE ==> TypeOk(o, s, t)
  }

  lemma LastOfBoth<T>(g: seq<T>, h: seq<T>)
    requires h != []
    ensures (g + h)[..|g + h| - 1] == g + h[..|h| - 1] && (g + h)[|g + h| - 1] == h[|h| - 1]
  {
  }

  lemma {:induction false} OfTypeAppend(g: seq<Pdu>, h: seq<Pdu>, t: nat)
    ensures OfType(g + h, t) == OfType(g, t) + OfType(h, t)
  {
    if h == [] {
      assert g + h == g;
    } else {
      OfTypeAppend(g, h[..|h| - 1], t);
      LastOfBoth(g, h);
    }
  }

  lemma OfTypeEither(g: seq<Pdu>, h: seq<Pdu>, t: nat)
    ensures OfType(g, t) == [] ==> OfType(g + h, t) == OfType(h, t)
    ensures OfType(h, t) == [] ==> OfType(g + h, t) == OfType(g, t)
  {
    OfTypeAppend(g, h, t);
  }

  lemma SentOfType(o: Order, b: TxBuf, b': TxBuf, t: nat)
    requires b.Valid()
    ensures OfType(Sent(o, b, b'), t) == if b.hdr.pduType == t then Sent(o, b, b') else []
    ensures forall p :: p in Sent(o, b, b') ==> p.hdr.pduType == b.hdr.pduType
  {
    var g := Sent(o, b, b');
    assert g != [] ==> g[..|g| - 1] == [];
  }

  ghost predicate InOrder(bufs: seq<TxBuf>) {
    forall i {:trigger bufs[i]} :: 0 <= i < |bufs| ==> bufs[i].hdr.pduType == i
  }

  lemma {:induction false} FlattenOfType(qs: seq<seq<Pdu>>, t: nat)
    requires forall i :: 0 <= i < |qs| ==> OfType(qs[i], t) == if i == t then qs[i] else []
    ensures OfType(Flatten(qs), t) == if t < |qs| then qs[t] else []
  {
    if qs != [] {
      var n := |qs| - 1;
      assert forall i :: 0 <= i < n ==> qs[..n][i] == qs[i];
      FlattenOfType(qs[..n], t);
      OfTypeEither(Flatten(qs[..n]), qs[n], t);
    }
  }

  function AllSent(o: Order, before: seq<TxBuf>, after: seq<TxBuf>, n: nat): (qs: seq<seq<Pdu>>)
    requires AllValid(before) && n <= |before| == |after|
    ensures |qs| == n && forall i :: 0 <= i < n ==> qs[i] == Sent(o, before[i], after[i])
  {
    seq(n, i requires 0 <= i < n => Sent(o, before[i], after[i]))
  }

  lemma {:induction false} FrameFlattens(o: Order, before: seq<TxBuf>, after: seq<TxBuf>, n: nat)
    requires AllValid(before) && n <= |before| == |after|
    ensures Frame(o, before, after, n) == Flatten(AllSent(o, before, after, n))
  {
    if n > 0 {
      FrameFlattens(o, before, after, n - 1);
      assert AllSent(o, before, after, n)[..n - 1] == AllSent(o, before, after, n - 1);
    }
  }

  /** A frame holds at most one fragment of each type. */
  lemma FrameOfType(o: Order, before: seq<TxBuf>, after: seq<TxBuf>, t: nat)
    requires AllValid(before) && t < |before| == |after| && InOrder(before)
    ensures OfType(Frame(o, before, after, |before|), t) == Sent(o, before[t], after[t])
  {
    var qs := AllSent(o, before, after, |before|);
    FrameFlattens(o, before, after, |before|);
    forall i | 0 <= i < |qs|
      ensures OfType(qs[i], t) == if i == t then qs[i] else []
    {
      SentOfType(o, before[i], after[i], t);
    }
    FlattenOfType(qs, t);
  }

  lemma {:induction false} FrameTyped(o: Order, before: seq<TxBuf>, after: seq<TxBuf>, n: nat)
    requires AllValid(before) && n <= |before| == |after| && InOrder(before)
    ensures forall p :: p in Frame(o, before, after, n) ==> p.hdr.pduType < n
  {
    if n > 0 {
      FrameTyped(o, before, after, n - 1);
      SentOfType(o, before[n - 1], after[n - 1], 0);
    }
  }

  lemma FlattenExtend(h: Hist, ps: seq<Pdu>)
    requires h.sent != []
    ensures Flatten(Extend(h, ps).sent) == Flatten(h.sent) + ps
  {
    var k, ss := |h.sent| - 1, Extend(h, ps).sent;
    if ps != [] {
      assert ss[..k] == h.sent[..k] && ss[k] == h.sent[k] + ps;
    }
  }

  lemma FlattenNew(ss: seq<seq<Pdu>>)
    ensures Flatten(ss + [[]]) == Flatten(ss)
  {
    assert (ss + [[]])[..|ss|] == ss;
  }

  /** What a call may do to one type keeps its invariant. */
  lemma TypeAdvances(o: Order, t: nat, b: TxBuf, b': TxBuf, h: Hist, ps: seq<Pdu>)
    requires TypeInv(o, t, b, h) && Advanced(o, b, b') && ps == Sent(o, b, b')
    ensures TypeInv(o, t, b', Extend(h, ps))
    ensures Flatten(Extend(h, ps).sent) == Flatten(h.sent) + ps
  {
    if ps != [] {
      FragmentInv(o, t, b, h, b.len - b'.len, ps[0], b');
      assert ps == [ps[0]];
    }
    if h.sent == [] {
      assert Extend(h, ps) == h && ps == [];
    } else {
      FlattenExtend(h, ps);
    }
  }

  ghost predicate TypeOk(o: Order, s: State, t: nat)
    requires s.Shape() && t < MAX_CMD_TYPE
  {
    TypeInv(o, t, s.bufs[t], s.hists[t]) && OfType(s.log, t) == Flatten(s.hists[t].sent)
  }

  lemma SendTypeOk(o: Order, s: State, budget: UINT32, t: CmdType)
    requires SenderInv(o, s)
    ensures TypeOk(o, Step(o, s, Send(budget)), t)
  {
    var r := Tx(o, budget, s.bufs);
    var b, b', h := s.bufs[t], r.bufs[t], s.hists[t];
    assert TypeOk(o, s, t);
    InOrderInv(o, s);
    TxAccounts(o, budget, s.bufs);
    assert Advanced(o, b, b');
    TypeAdvances(o, t, b, b', h, Sent(o, b, b'));
    CallOfType(o, s, budget, t);
    OfTypeAppend(s.log, r.frame, t);
  }

  lemma InOrderInv(o: Order, s: State)
    requires SenderInv(o, s)
    ensures InOrder(s.bufs)
  {
    forall i | 0 <= i < |s.bufs|
      ensures s.bufs[i].hdr.pduType == i
    {
      assert TypeOk(o, s, i);
    }
  }

  /** What a call sends of type t. */
  lemma CallOfType(o: Order, s: State, budget: UINT32, t: CmdType)
    requires SenderInv(o, s)
    ensures var r := Tx(o, budget, s.bufs); OfType(r.frame, t) == Sent(o, s.bufs[t], r.bufs[t])
  {
    InOrderInv(o, s);
    TxAccounts(o, budget, s.bufs);
    FrameOfType(o, s.bufs, Tx(o, budget, s.bufs).bufs, t);
  }

  lemma TypedAppend(g: seq<Pdu>, h: seq<Pdu>)
    requires Typed(g, MAX_CMD_TYPE) && forall p :: p in h ==> p.hdr.pduType < MAX_CMD_TYPE
    ensures Typed(g + h, MAX_CMD_TYPE)
  {
  }

  lemma SendInv(o: Order, s: State, budget: UINT32)
    requires SenderInv(o, s)
    ensures SenderInv(o, Step(o, s, Send(budget)))
  {
    var r := Tx(o, budget, s.bufs);
    TxAccounts(o, budget, s.bufs);
    InOrderInv(o, s);
    FrameTyped(o, s.bufs, r.bufs, MAX_CMD_TYPE);
    TypedAppend(s.log, r.frame);
    forall t | 0 <= t < MAX_CMD_TYPE
      ensures TypeOk(o, Step(o, s, Send(budget)), t)
    {
      SendTypeOk(o, s, budget, t);
    }
  }

  lemma InstallInv(o: Order, s: State, t: CmdType, msg: Message)
    requires SenderInv(o, s)
    ensures SenderInv(o, Step(o, s, Install(t, msg)))
  {
    var s' := Step(o, s, Install(t, msg));
    assert TypeOk(o, s, t);
    IndataInv(o, t, s.bufs[t], s.hists[t], msg);
    FlattenNew(s.hists[t].sent);
    forall i | 0 <= i < MAX_CMD_TYPE
      ensures TypeOk(o, s', i)
    {
      assert TypeOk(o, s, i);
    }
  }

  /** Over every run, in either order of the steps: no message is replaced while bytes of it are
      pending, `firstpkg` is on exactly the first fragment, `index` is constant within a message
      and advances by one modulo 64. */
  lemma {:induction false} SenderRuns(o: Order, data: seq<seq<UINT8>>, acts: seq<Action>)
    requires |data| == MAX_CMD_TYPE
    ensures SenderInv(o, Exec(o, Init(data), acts))
  {
    if acts != [] {
      SenderRuns(o, data, acts[..|acts| - 1]);
      var s := Exec(o, Init(data), acts[..|acts| - 1]);
      match acts[|acts| - 1]
      case Install(t, msg) => InstallInv(o, s, t, msg);
      case Send(budget) => SendInv(o, s, budget);
    }
  }

  // ----- the meant order: every message arrives

  lemma {:induction false} FrameMember(o: Order, before: seq<TxBuf>, after: seq<TxBuf>, n: nat, p: Pdu) returns (i: nat)
    requires AllValid(before) && n <= |before| == |after| && p in Frame(o, before, after, n)
    ensures i < n && after[i].len < before[i].len && p == Fragment(o, before[i], before[i].len - after[i].len).0
  {
    assert Frame(o, before, after, n) == Frame(o, before, after, n - 1) + Sent(o, before[n - 1], after[n - 1]);
    if p in Sent(o, before[n - 1], after[n - 1]) {
      i := n - 1;
    } else {
      i := FrameMember(o, before, after, n - 1, p);
    }
  }

  /** A meant frame can be split into its fragments again. */
  lemma MeantFrameReadable(budget: UINT32, bufs: seq<TxBuf>)
    requires AllValid(bufs)
    ensures var f := Tx(AsMeant, budget, bufs).frame; Parse(Serialize(f)) == Some(f)
  {
    var f := Tx(AsMeant, budget, bufs).frame;
    MeantSized(budget, bufs);
    ParseSerialize(f);
  }

  lemma MeantSized(budget: UINT32, bufs: seq<TxBuf>)
    requires AllValid(bufs)
    ensures forall p :: p in Tx(AsMeant, budget, bufs).frame ==> p.Sized()
  {
    var r := Tx(AsMeant, budget, bufs);
    TxAccounts(AsMeant, budget, bufs);
    forall p | p in r.frame
      ensures p.Sized()
    {
      var i := FrameMember(AsMeant, bufs, r.bufs, |bufs|, p);
    }
  }

  /** So the receiver takes exactly these fragments. */
  lemma MeantTaken(budget: UINT32, bufs: seq<TxBuf>)
    requires AllValid(bufs) && |bufs| == MAX_CMD_TYPE && InOrder(bufs)
    ensures var f := Tx(AsMeant, budget, bufs).frame; Leading(Serialize(f)) == f && Typed(f, MAX_CMD_TYPE)
  {
    var r := Tx(AsMeant, budget, bufs);
    MeantSized(budget, bufs);
    TxAccounts(AsMeant, budget, bufs);
    FrameTyped(AsMeant, bufs, r.bufs, MAX_CMD_TYPE);
    LeadingUpTo(r.frame, |r.frame|);
  }

  lemma {:induction false} RunAllAppend(sts: seq<RxState>, g: seq<Pdu>, h: seq<Pdu>)
    requires Typed(g, |sts|) && Typed(h, |sts|)
    ensures Typed(g + h, |sts|) && RunAll(sts, g + h) == RunAll(RunAll(sts, g), h)
  {
    if h == [] {
      assert g + h == g;
    } else {
      RunAllAppend(sts, g, h[..|h| - 1]);
      assert (g + h)[..|g + h| - 1] == g + h[..|h| - 1];
    }
  }

  /** As meant, the receive buffers are those of the log taken one fragment at a time. */
  ghost predicate Received(data: seq<seq<UINT8>>, s: State)
    requires |data| == MAX_CMD_TYPE
  {
    s.Shape() && Typed(s.log, MAX_CMD_TYPE) && s.rx == RunAll(Init(data).rx, s.log)
  }

  lemma SendReceived(data: seq<seq<UINT8>>, s: State, budget: UINT32)
    requires |data| == MAX_CMD_TYPE && SenderInv(AsMeant, s) && Received(data, s)
    ensures Received(data, Step(AsMeant, s, Send(budget)))
  {
    var r := Tx(AsMeant, budget, s.bufs);
    InOrderInv(AsMeant, s);
    MeantTaken(budget, s.bufs);
    RunAllAppend(Init(data).rx, s.log, r.frame);
  }

  lemma {:induction false} ReceiverRuns(data: seq<seq<UINT8>>, acts: seq<Action>)
    requires |data| == MAX_CMD_TYPE
    ensures Received(data, Exec(AsMeant, Init(data), acts))
  {
    if acts != [] {
      var s := Exec(AsMeant, Init(data), acts[..|acts| - 1]);
      ReceiverRuns(data, acts[..|acts| - 1]);
      SenderRuns(AsMeant, data, acts[..|acts| - 1]);
      match acts[|acts| - 1]
      case Install(t, msg) =>
      case Send(budget) => SendReceived(data, s, budget);
    }
  }

  /** The fragments of message number j, as meant, put together. */
  lemma MeantChain(t: nat, j: nat, m: seq<UINT8>, ps: seq<Pdu>, st: RxState)
    requires Headers(t, j, ps) && MeantBody(m, ps) && ps != []
    ensures Run(st, ps).bytes == Concat(ps) == m[..|Concat(ps)|]
    ensures Run(st, ps).Complete() <==> |Concat(ps)| == |m|
  {
    assert Chain(ps);
    RunOfChain(st, ps);
    ConcatFirst(ps);
  }

  lemma FlattenRun(st: RxState, ss: seq<seq<Pdu>>)
    requires ss != []
    ensures Run(st, Flatten(ss)) == Run(Run(st, Flatten(ss[..|ss| - 1])), ss[|ss| - 1])
  {
    RunAppend(st, Flatten(ss[..|ss| - 1]), ss[|ss| - 1]);
  }

  lemma TypeReceived(data: seq<seq<UINT8>>, s: State, t: CmdType)
    requires |data| == MAX_CMD_TYPE && SenderInv(AsMeant, s) && Received(data, s)
    ensures s.rx[t] == Run(InitState(t), Flatten(s.hists[t].sent))
  {
    assert TypeOk(AsMeant, s, t);
    TypesAreIndependent(Init(data).rx, s.log, t);
  }

  /** What the receive buffer of a type says about the current message: with fragments of it sent,
      the buffer holds exactly the bytes sent so far and reports complete exactly when the last one
      has been sent; before its first fragment, the buffer holds the previous message, if any. */
  ghost predicate AsSent(b: TxBuf, h: Hist, st: RxState) {
    var n := |h.msgs|;
    && |h.sent| == n
    && (n == 0 || (n == 1 && h.sent[0] == []) ==> !st.Complete())
    && (n > 0 && h.sent[n - 1] != [] ==>
          && (st.Complete() <==> b.len == 0)
          && b.len <= |h.msgs[n - 1]|
          && st.bytes == h.msgs[n - 1][..|h.msgs[n - 1]| - b.len])
    && (n > 1 && h.sent[n - 1] == [] ==> st.Complete() && st.bytes == h.msgs[n - 2])
  }

  /** The round trip: that is so for every type at every moment of every run. */
  lemma EndToEnd(data: seq<seq<UINT8>>, acts: seq<Action>, t: CmdType)
    requires |data| == MAX_CMD_TYPE
    ensures var s := Exec(AsMeant, Init(data), acts); AsSent(s.bufs[t], s.hists[t], s.rx[t])
  {
    var s := Exec(AsMeant, Init(data), acts);
    SenderRuns(AsMeant, data, acts);
    ReceiverRuns(data, acts);
    assert TypeOk(AsMeant, s, t);
    TypeReceived(data, s, t);
    TypeRoundTrip(t, s.bufs[t], s.hists[t], s.rx[t]);
  }

  lemma TypeRoundTrip(t: CmdType, b: TxBuf, h: Hist, st: RxState)
    requires TypeInv(AsMeant, t, b, h) && st == Run(InitState(t), Flatten(h.sent))
    ensures AsSent(b, h, st)
  {
    var n := |h.msgs|;
    if n > 0 {
      FlattenRun(InitState(t), h.sent);
      if h.sent[n - 1] != [] {
        assert Current(AsMeant, b, h.msgs[n - 1], h.sent[n - 1]);
        MeantChain(t, n, h.msgs[n - 1], h.sent[n - 1], Run(InitState(t), Flatten(h.sent[..n - 1])));
      } else if n > 1 {
        PreviousHeld(t, b, h);
      }
    }
  }

  lemma PreviousHeld(t: CmdType, b: TxBuf, h: Hist)
    requires TypeInv(AsMeant, t, b, h) && |h.msgs| > 1
    ensures var st := Run(InitState(t), Flatten(h.sent[..|h.msgs| - 1]));
            st.Complete() && st.bytes == h.msgs[|h.msgs| - 2]
  {
    var k, ss := |h.msgs| - 2, h.sent[..|h.msgs| - 1];
    FlattenRun(InitState(t), ss);
    assert ss[k] == h.sent[k];
    MeantChain(t, k + 1, h.msgs[k], h.sent[k], Run(InitState(t), Flatten(ss[..k])));
  }

  /** PDU k of a frame is the only one of its type, so nothing of the type comes behind it. */
  lemma NoneBehind(f: seq<Pdu>, k: nat)
    requires k < |f| && |OfType(f, f[k].hdr.pduType)| <= 1
    ensures OfType(f[..k + 1], f[k].hdr.pduType) == OfType(f, f[k].hdr.pduType)
  {
    var g := f[..k + 1];
    assert f == g + f[k + 1..] && g[|g| - 1] == f[k];
    OfTypeAppend(g, f[k + 1..], f[k].hdr.pduType);
  }

  lemma LastTaken(rx: seq<RxState>, f: seq<Pdu>, k: nat)
    requires Typed(f, |rx|) && k < |f|
    ensures Typed(f[..k], |rx|) && Typed(f[..k + 1], |rx|)
    ensures RunAll(rx, f[..k])[f[k].hdr.pduType].Combine(f[k]) == RunAll(rx, f[..k + 1])[f[k].hdr.pduType]
  {
    var g := f[..k + 1];
    assert g[|g| - 1] == f[k] && g[..|g| - 1] == f[..k];
  }

  /** Its type's buffer is afterwards what the whole frame makes of it. */
  lemma OneFragment(rx: seq<RxState>, f: seq<Pdu>, k: nat)
    requires Typed(f, |rx|) && k < |f| && |OfType(f, f[k].hdr.pduType)| <= 1
    ensures Typed(f[..k], |rx|)
    ensures RunAll(rx, f[..k])[f[k].hdr.pduType].Combine(f[k]) == RunAll(rx, f)[f[k].hdr.pduType]
  {
    var t := f[k].hdr.pduType;
    LastTaken(rx, f, k);
    NoneBehind(f, k);
    TypesAreIndependent(rx, f[..k + 1], t);
    TypesAreIndependent(rx, f, t);
  }

  /** What the receiver takes on trust is true of every PDU of every meant frame: the length field
      is right and the data fits into the buffer. */
  lemma DeliveredFits(data: seq<seq<UINT8>>, acts: seq<Action>, budget: UINT32, k: nat)
    requires |data| == MAX_CMD_TYPE
    requires k < |Tx(AsMeant, budget, Exec(AsMeant, Init(data), acts).bufs).frame|
    ensures var s := Exec(AsMeant, Init(data), acts);
            var f := Tx(AsMeant, budget, s.bufs).frame;
            var p := f[k];
            && p.Sized() && p.hdr.pduType < MAX_CMD_TYPE && Typed(f[..k], MAX_CMD_TYPE)
            && |RunAll(s.rx, f[..k])[p.hdr.pduType].Combine(p).bytes| <= HELLO_LEN
  {
    var s, next := Exec(AsMeant, Init(data), acts), acts + [Send(budget)];
    var r := Tx(AsMeant, budget, s.bufs);
    var t := r.frame[k].hdr.pduType;
    assert next[..|acts|] == acts;
    SenderRuns(AsMeant, data, acts);
    InOrderInv(AsMeant, s);
    MeantSized(budget, s.bufs);
    MeantTaken(budget, s.bufs);
    CallOfType(AsMeant, s, budget, t);
    OneFragment(s.rx, r.frame, k);
    assert Exec(AsMeant, Init(data), next).rx == RunAll(s.rx, r.frame);
    BufferFits(data, next, t);
  }

  /** Over every run, no receive buffer holds more than the largest message. */
  lemma BufferFits(data: seq<seq<UINT8>>, acts: seq<Action>, t: CmdType)
    requires |data| == MAX_CMD_TYPE
    ensures |Exec(AsMeant, Init(data), acts).rx[t].bytes| <= HELLO_LEN
  {
    var s := Exec(AsMeant, Init(data), acts);
    var h := s.hists[t];
    EndToEnd(data, acts, t);
    SenderRuns(AsMeant, data, acts);
    ReceiverRuns(data, acts);
    TypeReceived(data, s, t);
    assert TypeOk(AsMeant, s, t);
    forall j | 0 <= j < |h.msgs|
      ensures |h.msgs[j]| <= HELLO_LEN
    {
      assert MessageOk(AsMeant, t, j, h.msgs[j], h.sent[j], j < |h.msgs| - 1);
    }
  }
}
