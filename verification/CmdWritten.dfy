/** What the sender's code does as written (src/cmd_handle.c lines 185-210), where it copies a header
    before it updates it and takes the data from the start of the buffer every time. */
module CmdWritten {
  import opened CmdPdu
  import opened CmdTransmit
  import opened CmdReassembly
  import opened CmdSession

  // ----- which frames can be read

  lemma {:induction false} FrameHas(o: Order, before: seq<TxBuf>, after: seq<TxBuf>, n: nat, i: nat)
    requires AllValid(before) && i < n <= |before| == |after| && after[i].len < before[i].len
    ensures Fragment(o, before[i], before[i].len - after[i].len).0 in Frame(o, before, after, n)
  {
    if i < n - 1 {
      FrameHas(o, before, after, n - 1, i);
    }
  }

  /** The stale length field of type i happens to be the length of the fragment it is sent with. */
  ghost predicate LengthRight(before: seq<TxBuf>, after: seq<TxBuf>, i: nat)
    requires i < |before| == |after|
  {
    after[i].len < before[i].len ==> before[i].hdr.sublen == CMD_HDR_LEN + before[i].len - after[i].len
  }

  /** For all buffers and budgets: the receiver can split a frame into its fragments exactly when
      every buffer that was sent from held the length of this fragment already. */
  lemma WrittenReadableIff(budget: UINT32, bufs: seq<TxBuf>)
    requires AllValid(bufs)
    ensures var r := Tx(AsWritten, budget, bufs);
            Parse(Serialize(r.frame)) == Some(r.frame) <==> forall i :: 0 <= i < |bufs| ==> LengthRight(bufs, r.bufs, i)
  {
    var r := Tx(AsWritten, budget, bufs);
    TxAccounts(AsWritten, budget, bufs);
    ReadableIff(r.frame);
    if forall p :: p in r.frame ==> p.Sized() {
      forall i | 0 <= i < |bufs|
        ensures LengthRight(bufs, r.bufs, i)
      {
        if r.bufs[i].len < bufs[i].len {
          FrameHas(AsWritten, bufs, r.bufs, |bufs|, i);
        }
      }
    }
    if forall i :: 0 <= i < |bufs| ==> LengthRight(bufs, r.bufs, i) {
      forall p | p in r.frame
        ensures p.Sized()
      {
        var i := FrameMember(AsWritten, bufs, r.bufs, |bufs|, p);
        assert LengthRight(bufs, r.bufs, i);
      }
    }
  }

  /** The fragments sent so far of the current message of type t. */
  function SentNow(s: State, t: nat): seq<Pdu>
    requires s.Shape() && t < MAX_CMD_TYPE
  {
    var ss := s.hists[t].sent;
    if ss == [] then [] else ss[|ss| - 1]
  }

  /** The message of type t that was installed last. */
  function MessageNow(s: State, t: nat): seq<UINT8>
    requires s.Shape() && t < MAX_CMD_TYPE
  {
    var ms := s.hists[t].msgs;
    if ms == [] then [] else ms[|ms| - 1]
  }

  /** A buffer with bytes of message m pending, fragments ps behind it: its length field is 0 before
      the first fragment and otherwise the length of the fragment before. */
  ghost predicate PendingOf(b: TxBuf, m: seq<UINT8>, ps: seq<Pdu>, t: nat, j: nat) {
    && b.hdr == CmdHdr(b.hdr.pduType, ps == [], ps != [], b.hdr.index, b.hdr.sublen)
    && b.hdr.pduType == t && b.hdr.index == j % 64
    && b.hdr.sublen == SizeBefore(ps, |ps|)
    && m <= b.data && |Concat(ps)| + b.len == |m|
  }

  lemma PendingInv(t: nat, b: TxBuf, h: Hist)
    requires TypeInv(AsWritten, t, b, h) && b.len > 0
    ensures var n := |h.msgs|; n == |h.sent| > 0 && PendingOf(b, h.msgs[n - 1], h.sent[n - 1], t, n)
  {
    assert Current(AsWritten, b, h.msgs[|h.msgs| - 1], h.sent[|h.msgs| - 1]);
  }

  /** A state that some run of the code as written ends in. */
  ghost predicate Reachable(s: State) {
    exists data, acts :: |data| == MAX_CMD_TYPE && s == Exec(AsWritten, Init(data), acts)
  }

  lemma ReachableInv(s: State)
    requires Reachable(s)
    ensures SenderInv(AsWritten, s)
  {
    var data, acts :| |data| == MAX_CMD_TYPE && s == Exec(AsWritten, Init(data), acts);
    SenderRuns(AsWritten, data, acts);
  }

  /** That is how every pending type stands in every run. */
  lemma PendingType(s: State, t: CmdType)
    requires SenderInv(AsWritten, s) && s.bufs[t].len > 0
    ensures |s.hists[t].msgs| == |s.hists[t].sent| > 0
    ensures PendingOf(s.bufs[t], MessageNow(s, t), SentNow(s, t), t, |s.hists[t].msgs|)
  {
    assert TypeOk(AsWritten, s, t);
    PendingInv(t, s.bufs[t], s.hists[t]);
  }

  /** A fragment that continues a message and is as long as the one before it. */
  ghost predicate SameSize(s: State, after: seq<TxBuf>, t: nat)
    requires s.Shape() && t < MAX_CMD_TYPE == |after|
  {
    var ps := SentNow(s, t);
    after[t].len < s.bufs[t].len ==> ps != [] && |ps[|ps| - 1].payload| == s.bufs[t].len - after[t].len
  }

  /** In every run: a frame can be read exactly when it has no first fragment and each of its
      fragments is as long as the one before it of the same message. */
  lemma WrittenReadableRuns(s: State, budget: UINT32)
    requires Reachable(s)
    ensures s.Shape()
    ensures var r := Tx(AsWritten, budget, s.bufs);
            Parse(Serialize(r.frame)) == Some(r.frame) <==>
            forall t :: 0 <= t < MAX_CMD_TYPE ==> SameSize(s, r.bufs, t)
  {
    var r := Tx(AsWritten, budget, s.bufs);
    ReachableInv(s);
    WrittenReadableIff(budget, s.bufs);
    forall t | 0 <= t < MAX_CMD_TYPE
      ensures LengthRight(s.bufs, r.bufs, t) <==> SameSize(s, r.bufs, t)
    {
      if s.bufs[t].len > 0 {
        PendingType(s, t);
      }
    }
  }

  /** In every run: a frame that starts with a first fragment carries length 0 there and cannot be
      split at all. */
  lemma WrittenFrameUnreadable(s: State, budget: UINT32)
    requires Reachable(s)
    ensures s.Shape()
    ensures var f := Tx(AsWritten, budget, s.bufs).frame;
            f != [] && f[0].hdr.firstpkg ==> f[0].hdr.sublen == 0 && Parse(Serialize(f)) == None
  {
    ReachableInv(s);
    var f := Tx(AsWritten, budget, s.bufs).frame;
    if f != [] && f[0].hdr.firstpkg {
      FrameHeaders(s, budget, f[0]);
      StartsUnsplit(f);
    }
  }

  lemma FrameHeaders(s: State, budget: UINT32, p: Pdu)
    requires SenderInv(AsWritten, s) && p in Tx(AsWritten, budget, s.bufs).frame
    ensures p.hdr.pduType < MAX_CMD_TYPE && p.payload != [] && (p.hdr.firstpkg ==> p.hdr.sublen == 0)
  {
    var r := Tx(AsWritten, budget, s.bufs);
    TxAccounts(AsWritten, budget, s.bufs);
    var i := FrameMember(AsWritten, s.bufs, r.bufs, MAX_CMD_TYPE, p);
    PendingType(s, i);
  }

  lemma StartsUnsplit(f: seq<Pdu>)
    requires f != [] && f[0].hdr.sublen < CMD_HDR_LEN
    ensures Parse(Serialize(f)) == None
  {
    var rest := f[0].payload + Serialize(f[1..]);
    HdrRoundTrip(f[0].hdr, rest);
    assert Serialize(f) == EncodeHdr(f[0].hdr) + rest;
  }

  // ----- when a message is sent whole

  /** Lengths aside, the fragments ps stand for a message when there is one, and for m when it holds
      all of m; the first length is wrong in any case. */
  ghost predicate WholeIff(m: seq<UINT8>, ps: seq<Pdu>) {
    && (MessageRun(ps) && Concat(ps) == m <==> |ps| == 1 && |ps[0].payload| == |m|)
    && (MessageRun(ps) <==> |ps| == 1)
    && (ps != [] ==> !ps[0].Sized())
  }

  /** In every run: the fragments of a message are a run that the receiver would take for the whole
      message exactly when there is only one and it carries everything.  Its length field is wrong
      all the same; and a first fragment that carries less is taken for a message, too. */
  lemma WrittenArrivesIff(s: State, t: CmdType, j: nat)
    requires Reachable(s) && s.Shape() && j < |s.hists[t].sent|
    ensures var h := s.hists[t];
            |h.msgs| == |h.sent| && WholeIff(h.msgs[j], h.sent[j])
  {
    ReachableInv(s);
    assert TypeOk(AsWritten, s, t);
    MessageWhole(t, s.bufs[t], s.hists[t], j);
  }

  lemma MessageWhole(t: nat, b: TxBuf, h: Hist, j: nat)
    requires TypeInv(AsWritten, t, b, h) && j < |h.sent|
    ensures |h.msgs| == |h.sent| && WholeIff(h.msgs[j], h.sent[j])
  {
    assert MessageOk(AsWritten, t, j, h.msgs[j], h.sent[j], j < |h.msgs| - 1);
    WrittenBodyIff(t, j + 1, h.msgs[j], h.sent[j]);
  }

  lemma WrittenBodyIff(t: nat, j: nat, m: seq<UINT8>, ps: seq<Pdu>)
    requires Headers(t, j, ps) && WrittenBody(m, ps)
    ensures WholeIff(m, ps)
  {
    if |ps| == 1 {
      ConcatOne(ps[0]);
      assert ps == [ps[0]];
    }
  }

  /** The room that a call leaves for type t when the loop comes to it. */
  function RoomFor(budget: UINT32, bufs: seq<TxBuf>, t: nat): nat
    requires AllValid(bufs) && t <= |bufs|
  {
    var st := TxUpTo(AsWritten, budget, bufs, t);
    if st.stopped then 0 else Room(budget, st.wlen)
  }

  /** Later iterations leave type t alone. */
  lemma {:induction false} Settled(budget: UINT32, bufs: seq<TxBuf>, t: nat, n: nat)
    requires AllValid(bufs) && t < n <= |bufs|
    ensures TxUpTo(AsWritten, budget, bufs, n).bufs[t] == TxUpTo(AsWritten, budget, bufs, t + 1).bufs[t]
  {
    if t + 1 < n {
      Settled(budget, bufs, t, n - 1);
      TxTypeStep(AsWritten, budget, TxUpTo(AsWritten, budget, bufs, n - 1), n - 1);
    }
  }

  /** What is left of len bytes when there is room for a fragment of so many. */
  function Left(len: nat, room: nat): nat {
    if room <= CMD_HDR_LEN then len else if len + CMD_HDR_LEN <= room then 0 else len - (room - CMD_HDR_LEN)
  }

  /** What a call leaves of type t. */
  lemma TypeInCall(budget: UINT32, bufs: seq<TxBuf>, t: nat)
    requires AllValid(bufs) && t < |bufs|
    ensures Tx(AsWritten, budget, bufs).bufs[t].len == Left(bufs[t].len, RoomFor(budget, bufs, t))
  {
    NotYet(AsWritten, budget, bufs, t);
    Settled(budget, bufs, t, |bufs|);
  }

  /** What a call adds to the history of type t. */
  lemma HistoryGrows(s: State, t: CmdType, budget: UINT32)
    requires SenderInv(AsWritten, s) && s.hists[t].sent != []
    ensures var s' := Step(AsWritten, s, Send(budget));
            SentNow(s', t) == SentNow(s, t) + Sent(AsWritten, s.bufs[t], s'.bufs[t])
  {
    var r := Tx(AsWritten, budget, s.bufs);
    CallOfType(AsWritten, s, budget, t);
    LastExtended(s.hists[t], Sent(AsWritten, s.bufs[t], r.bufs[t]));
    assert Step(AsWritten, s, Send(budget)).hists[t] == Extend(s.hists[t], OfType(r.frame, t));
  }

  lemma LastExtended(h: Hist, ps: seq<Pdu>)
    requires h.sent != []
    ensures var ss, k := Extend(h, ps).sent, |h.sent| - 1; |ss| == k + 1 && ss[k] == h.sent[k] + ps
  {
    assert h.sent[|h.sent| - 1] + [] == h.sent[|h.sent| - 1];
  }

  /** The fragments ps stand for a message exactly when there was room for a byte of m, and for m
      exactly when there was room for all of it; with less room, they hold as much as fitted. */
  ghost predicate StartIff(ps: seq<Pdu>, m: seq<UINT8>, room: nat) {
    && (MessageRun(ps) <==> room > CMD_HDR_LEN)
    && (MessageRun(ps) && Concat(ps) == m <==> room >= |m| + CMD_HDR_LEN)
    && (CMD_HDR_LEN < room < |m| + CMD_HDR_LEN ==> Concat(ps) == m[..room - CMD_HDR_LEN])
  }

  /** The first call that comes to a message decides: it goes out whole exactly when there is room
      for all of it and a header; with less room, but any, the receiver would still take the first
      fragment for a message. */
  lemma FirstSend(s: State, t: CmdType, budget: UINT32)
    requires Reachable(s) && s.Shape() && s.bufs[t].len > 0 && s.bufs[t].hdr.firstpkg
    ensures var ps, m := SentNow(Step(AsWritten, s, Send(budget)), t), MessageNow(s, t);
            var room := RoomFor(budget, s.bufs, t);
            StartIff(ps, m, room)
  {
    ReachableInv(s);
    PendingType(s, t);
    HistoryGrows(s, t, budget);
    TypeInCall(budget, s.bufs, t);
    FirstFragment(s.bufs[t], Tx(AsWritten, budget, s.bufs).bufs[t], MessageNow(s, t), RoomFor(budget, s.bufs, t));
  }

  lemma FirstFragment(b: TxBuf, b': TxBuf, m: seq<UINT8>, room: nat)
    requires b.Valid() && b.hdr.firstpkg && !b.hdr.fragment && m <= b.data && |m| == b.len > 0
    requires b'.len == Left(b.len, room)
    ensures StartIff([] + Sent(AsWritten, b, b'), m, room)
  {
    if b'.len < b.len {
      var p := Fragment(AsWritten, b, b.len - b'.len).0;
      ConcatOne(p);
      assert [] + Sent(AsWritten, b, b') == [p];
    }
  }

  function WithLength(p: Pdu): (q: Pdu)
    requires |p.payload| <= HELLO_LEN
    ensures q.Sized() && q.payload == p.payload
  {
    Pdu(p.hdr.(sublen := CMD_HDR_LEN + |p.payload|), p.payload)
  }

  /** Were the length field of such a first fragment right, the receiver would take it and report a
      complete message while the sender still holds the rest of it, whatever the buffer contained. */
  lemma PrematureCompletion(s: State, t: CmdType, budget: UINT32, rx: seq<RxState>)
    requires Reachable(s) && s.Shape() && s.bufs[t].len > 0 && s.bufs[t].hdr.firstpkg
    requires CMD_HDR_LEN < RoomFor(budget, s.bufs, t) < |MessageNow(s, t)| + CMD_HDR_LEN
    requires |rx| == MAX_CMD_TYPE
    ensures var s' := Step(AsWritten, s, Send(budget));
            var ps := SentNow(s', t);
            && |ps| == 1 && ps[0].hdr.sublen == 0 && |ps[0].payload| <= HELLO_LEN
            && var got := Deliver(rx, Serialize([WithLength(ps[0])]))[t];
            && got.Complete() && got.bytes < MessageNow(s, t) && s'.bufs[t].len > 0
  {
    ReachableInv(s);
    PendingType(s, t);
    HistoryGrows(s, t, budget);
    TypeInCall(budget, s.bufs, t);
    FirstTruncated(s.bufs[t], Tx(AsWritten, budget, s.bufs).bufs[t], MessageNow(s, t));
    DeliverOne(rx, WithLength(SentNow(Step(AsWritten, s, Send(budget)), t)[0]));
  }

  lemma FirstTruncated(b: TxBuf, b': TxBuf, m: seq<UINT8>)
    requires b.Valid() && b.hdr.firstpkg && !b.hdr.fragment && b.hdr.sublen == 0
    requires m <= b.data && |m| == b.len && 0 < b'.len < b.len
    ensures var ps := [] + Sent(AsWritten, b, b');
            |ps| == 1 && ps[0].hdr == b.hdr && ps[0].payload != [] && ps[0].payload < m
  {
    assert [] + Sent(AsWritten, b, b') == Sent(AsWritten, b, b');
  }

  lemma DeliverOne(rx: seq<RxState>, p: Pdu)
    requires |rx| == MAX_CMD_TYPE && p.Sized() && p.hdr.pduType < MAX_CMD_TYPE
    ensures Deliver(rx, Serialize([p])) == CombineAll(rx, p)
  {
    var f := [p];
    LeadingUpTo(f, 1);
    assert f[..1] == f && f[..|f| - 1] == [];
    assert RunAll(rx, f) == CombineAll(RunAll(rx, []), p);
  }

  /** In every run, as written: a first fragment reaches the receiver, if at all, with length 0, so
      that the code would copy 0 - 4 bytes.  It comes to the first one of a frame when all lengths
      before it are right, and then takes nothing more. */
  lemma FirstReachedWithZero(s: State, budget: UINT32, k: nat)
    requires Reachable(s) && s.Shape() && k < |Tx(AsWritten, budget, s.bufs).frame|
    requires Tx(AsWritten, budget, s.bufs).frame[k].hdr.firstpkg
    ensures var f := Tx(AsWritten, budget, s.bufs).frame;
            && f[k].hdr.sublen == 0 && f[k].payload != []
            && ((forall j :: 0 <= j < k ==> f[j].Sized()) ==>
                  Leading(Serialize(f)) == f[..k] && DecodeHdr(Serialize(f[k..])) == f[k].hdr)
  {
    var f := Tx(AsWritten, budget, s.bufs).frame;
    ReachableInv(s);
    forall p | p in f
      ensures p.hdr.pduType < MAX_CMD_TYPE && p.payload != [] && (p.hdr.firstpkg ==> p.hdr.sublen == 0)
    {
      FrameHeaders(s, budget, p);
    }
    HdrRoundTrip(f[k].hdr, f[k].payload + Serialize(f[k..][1..]));
    assert Serialize(f[k..]) == EncodeHdr(f[k].hdr) + (f[k].payload + Serialize(f[k..][1..]));
    if forall j :: 0 <= j < k ==> f[j].Sized() {
      LeadingUpTo(f, k);
    }
  }

  // ----- what arrives

  /** No receive buffer holds a first fragment, so none is complete. */
  ghost predicate NoneFirst(rx: seq<RxState>) {
    forall i :: 0 <= i < |rx| ==> !rx[i].hdr.firstpkg && !rx[i].Complete()
  }

  lemma {:induction false} RunAllNoneFirst(rx: seq<RxState>, f: seq<Pdu>)
    requires Typed(f, |rx|) && NoneFirst(rx) && forall i :: 0 <= i < |f| ==> !f[i].hdr.firstpkg
    ensures NoneFirst(RunAll(rx, f))
  {
    if f != [] {
      RunAllNoneFirst(rx, f[..|f| - 1]);
    }
  }

  /** The receiver takes nothing from a frame but fragments that were put into it: no payload bytes
      are mistaken for a header. */
  ghost predicate Honest(f: seq<Pdu>) {
    Leading(Serialize(f)) <= f
  }

  /** In every run, that is so exactly when the first fragment with a wrong length, if any, has one
      that stops the receiver: below 4, or beyond the end of the frame. */
  lemma HonestIff(s: State, budget: UINT32)
    requires Reachable(s) && s.Shape()
    ensures var f := Tx(AsWritten, budget, s.bufs).frame; Honest(f) <==> StopsAtWrong(f)
  {
    var f := Tx(AsWritten, budget, s.bufs).frame;
    ReachableInv(s);
    forall p | p in f
      ensures p.hdr.pduType < MAX_CMD_TYPE
    {
      FrameHeaders(s, budget, p);
    }
    LeadingIsPrefixIff(f);
  }

  lemma HonestSend(s: State, budget: UINT32)
    requires SenderInv(AsWritten, s) && NoneFirst(s.rx) && Honest(Tx(AsWritten, budget, s.bufs).frame)
    ensures NoneFirst(Step(AsWritten, s, Send(budget)).rx)
  {
    var f := Tx(AsWritten, budget, s.bufs).frame;
    var ps := Leading(Serialize(f));
    forall i | 0 <= i < |ps|
      ensures !ps[i].hdr.firstpkg
    {
      assert ps[i] == f[i];
      FrameHeaders(s, budget, f[i]);
    }
    RunAllNoneFirst(s.rx, ps);
  }

  /** Where the receiver stops in such a frame, the code may go on with a fragment whose length runs
      past the end, and with whatever bytes lie there; that completes nothing either. */
  lemma BeyondTheEnd(s: State, budget: UINT32, beyond: seq<UINT8>)
    requires SenderInv(AsWritten, s) && NoneFirst(s.rx) && Honest(Tx(AsWritten, budget, s.bufs).frame)
    ensures var f, rx := Tx(AsWritten, budget, s.bufs).frame, Step(AsWritten, s, Send(budget)).rx;
            var k := |Leading(Serialize(f))|;
            k < |f| && f[k].hdr.sublen >= CMD_HDR_LEN ==>
              f[k].hdr.pduType < |rx| && NoneFirst(CombineAll(rx, Pdu(f[k].hdr, f[k].payload + beyond)))
  {
    var f := Tx(AsWritten, budget, s.bufs).frame;
    var k := |Leading(Serialize(f))|;
    HonestSend(s, budget);
    if k < |f| && f[k].hdr.sublen >= CMD_HDR_LEN {
      FrameHeaders(s, budget, f[k]);
    }
  }

  ghost predicate HonestAt(s: State, acts: seq<Action>, k: nat)
    requires s.Shape() && k < |acts|
  {
    acts[k].Send? ==> Honest(Tx(AsWritten, acts[k].budget, Exec(AsWritten, s, acts[..k]).bufs).frame)
  }

  ghost predicate HonestRun(s: State, acts: seq<Action>)
    requires s.Shape()
  {
    forall k :: 0 <= k < |acts| ==> HonestAt(s, acts, k)
  }

  lemma HonestLast(s: State, acts: seq<Action>)
    requires s.Shape() && acts != []
    ensures var n := |acts| - 1; HonestRun(s, acts) <==> HonestRun(s, acts[..n]) && HonestAt(s, acts, n)
  {
    var h := acts[..|acts| - 1];
    forall k | 0 <= k < |h|
      ensures HonestAt(s, h, k) <==> HonestAt(s, acts, k)
    {
      assert h[k] == acts[k] && h[..k] == acts[..k];
    }
  }

  /** Over every run of the code as written in which no bytes are mistaken for a header: no receive
      buffer ever reports a message. */
  lemma {:induction false} NothingArrives(data: seq<seq<UINT8>>, acts: seq<Action>)
    requires |data| == MAX_CMD_TYPE && HonestRun(Init(data), acts)
    ensures NoneFirst(Exec(AsWritten, Init(data), acts).rx)
  {
    if acts != [] {
      var h, a := acts[..|acts| - 1], acts[|acts| - 1];
      HonestLast(Init(data), acts);
      NothingArrives(data, h);
      if a.Send? {
        SenderRuns(AsWritten, data, h);
        HonestSend(Exec(AsWritten, Init(data), h), a.budget);
      }
    }
  }

  // ----- one type at a time

  /** With one type pending, a call does what the loop does for that type. */
  lemma LoneCall(budget: UINT32, bufs: seq<TxBuf>, t: nat)
    requires Lone(bufs, t)
    ensures Tx(AsWritten, budget, bufs) == TxType(AsWritten, budget, TxState(bufs, [], MAC_HDR_LEN, false), t)
  {
    TxBeforeFirst(AsWritten, budget, bufs, t);
    LoneRest(AsWritten, budget, bufs, t, |bufs|);
  }

  /** A single fragment that is no longer than its length field says is not split into others. */
  lemma OnePduHonest(p: Pdu)
    requires p.hdr.pduType < MAX_CMD_TYPE
    requires p.hdr.sublen < CMD_HDR_LEN || p.hdr.sublen >= CMD_HDR_LEN + |p.payload|
    ensures Honest([p])
  {
    LeadingIsPrefixIff([p]);
    assert Serialize([p][1..]) == [];
  }

  /** Only type t is used and every frame has the same budget. */
  ghost predicate Steady(acts: seq<Action>, t: nat, budget: UINT32) {
    forall k :: 0 <= k < |acts| ==> acts[k] == Send(budget) || (acts[k].Install? && acts[k].t == t)
  }

  /** What then holds of the buffers: a message of which a part was sent was sent in full frames. */
  ghost predicate SteadyInv(bufs: seq<TxBuf>, t: nat, budget: UINT32) {
    && Lone(bufs, t) && t < MAX_CMD_TYPE && bufs[t].hdr.pduType == t
    && (bufs[t].len > 0 && !bufs[t].hdr.firstpkg ==> bufs[t].hdr.sublen == Room(budget, MAC_HDR_LEN))
    && (bufs[t].len > 0 && bufs[t].hdr.firstpkg ==> bufs[t].hdr.sublen == 0)
  }

  lemma SteadySend(bufs: seq<TxBuf>, t: nat, budget: UINT32)
    requires SteadyInv(bufs, t, budget)
    ensures SteadyInv(Tx(AsWritten, budget, bufs).bufs, t, budget) && Honest(Tx(AsWritten, budget, bufs).frame)
  {
    var r := Tx(AsWritten, budget, bufs);
    LoneCall(budget, bufs, t);
    if r.frame != [] {
      assert r.frame == [r.frame[0]];
      OnePduHonest(r.frame[0]);
    }
  }

  lemma {:induction false} SteadyRun(data: seq<seq<UINT8>>, acts: seq<Action>, t: CmdType, budget: UINT32)
    requires |data| == MAX_CMD_TYPE && Steady(acts, t, budget)
    ensures SteadyInv(Exec(AsWritten, Init(data), acts).bufs, t, budget) && HonestRun(Init(data), acts)
  {
    if acts != [] {
      var n := |acts| - 1;
      var h, a := acts[..n], acts[n];
      SteadyRun(data, h, t, budget);
      SteadySend(Exec(AsWritten, Init(data), h).bufs, t, budget);
      assert a == Send(budget) || (a.Install? && a.t == t);
      HonestLast(Init(data), acts);
    }
  }

  /** Over every run with one type and a constant budget, as written, the receiver never reports a
      message, however many are sent. */
  lemma SteadyNeverArrives(data: seq<seq<UINT8>>, acts: seq<Action>, t: CmdType, budget: UINT32)
    requires |data| == MAX_CMD_TYPE && Steady(acts, t, budget)
    ensures NoneFirst(Exec(AsWritten, Init(data), acts).rx)
  {
    SteadyRun(data, acts, t, budget);
    NothingArrives(data, acts);
  }

  // ----- examples

  lemma ExecOne(o: Order, s: State, acts: seq<Action>, a: Action)
    requires s.Shape()
    ensures Exec(o, s, acts + [a]) == Step(o, Exec(o, s, acts), a)
  {
    assert (acts + [a])[..|acts|] == acts;
  }

  /** The first frame after a first message, for any message, type and budget. */
  lemma FirstFrame(data: seq<seq<UINT8>>, t: CmdType, msg: Message, budget: UINT32)
    requires |data| == MAX_CMD_TYPE
    ensures var s := Exec(AsWritten, Init(data), [Install(t, msg)]);
            var r := Tx(AsWritten, budget, s.bufs);
            var room := Room(budget, MAC_HDR_LEN);
            var n := if |msg| + CMD_HDR_LEN <= room then |msg| else room - CMD_HDR_LEN;
            && Lone(s.bufs, t) && s.bufs[t].len == |msg|
            && if CanSend(budget)
               then r.frame == [Pdu(CmdHdr(t, true, false, 1, 0), msg[..n])] && r.bufs[t].len == |msg| - n
               else r.frame == [] && r.bufs == s.bufs
  {
    var s := Exec(AsWritten, Init(data), [Install(t, msg)]);
    ExecOne(AsWritten, Init(data), [], Install(t, msg));
    assert [] + [Install(t, msg)] == [Install(t, msg)];
    FirstRoom(budget);
    LoneCall(budget, s.bufs, t);
    assert forall n :: 0 <= n <= |msg| ==> s.bufs[t].data[..n] == msg[..n];
  }

  /** Two bytes under a budget of thirteen: the frame holds one of them behind a header that says
      "first", "no more" and length 0, and the other one is still pending. */
  lemma TruncatedExample(data: seq<seq<UINT8>>) returns (acts: seq<Action>)
    requires |data| == MAX_CMD_TYPE
    ensures var s := Exec(AsWritten, Init(data), acts);
            var r := Tx(AsWritten, 13, s.bufs);
            && Reachable(s) && r.frame == [Pdu(CmdHdr(0, true, false, 1, 0), [7])]
            && Parse(Serialize(r.frame)) == None && r.bufs[0].len == 1
  {
    var msg: Message := [7, 8];
    acts := [Install(0, msg)];
    FirstFrame(data, 0, msg, 13);
    assert Room(13, MAC_HDR_LEN) == 5 && msg[..1] == [7];
    StartsUnsplit([Pdu(CmdHdr(0, true, false, 1, 0), msg[..1])]);
  }

  // The bytes of a message may be mistaken for a header: the message below has the image of a
  // fragment in it.

  const INNER := Pdu(CmdHdr(0, true, false, 0, 5), [9])
  const CARRIER: seq<UINT8> := [7, 0, 1, 5, 0, 9, 8]

  /** The second frame: its header still has the length of the first fragment, so the receiver finds
      another header in the payload. */
  lemma SecondFrame()
    ensures var p, q := Pdu(CmdHdr(0, false, true, 1, 5), [7, 0, 1, 5, 0, 9]), Pdu(CmdHdr(0, false, true, 1, 5), [7]);
            Leading(Serialize([p])) == [q, INNER]
  {
    var p, q := Pdu(CmdHdr(0, false, true, 1, 5), [7, 0, 1, 5, 0, 9]), Pdu(CmdHdr(0, false, true, 1, 5), [7]);
    assert EncodeHdr(INNER.hdr) == [0, 1, 5, 0];
    assert Serialize([INNER]) == [0, 1, 5, 0] + [9] + Serialize([]);
    assert [q, INNER][1..] == [INNER];
    assert Serialize([p]) == EncodeHdr(p.hdr) + p.payload + Serialize([]);
    assert Serialize([q, INNER]) == EncodeHdr(q.hdr) + q.payload + Serialize([INNER]);
    assert p.payload == q.payload + Serialize([INNER]);
    assert Serialize([p]) == Serialize([q, INNER]);
    LeadingUpTo([q, INNER], 2);
  }

  lemma DeliverInner(rx: seq<RxState>)
    requires |rx| == MAX_CMD_TYPE
    ensures var p := Pdu(CmdHdr(0, false, true, 1, 5), [7, 0, 1, 5, 0, 9]);
            var r := Deliver(rx, Serialize([p]))[0];
            r.Complete() && r.bytes == [9]
  {
    var q := Pdu(CmdHdr(0, false, true, 1, 5), [7]);
    SecondFrame();
    var f := [q, INNER];
    assert f[..1] == [q] && [q][..0] == [];
    assert RunAll(rx, f) == CombineAll(RunAll(rx, [q]), INNER);
  }

  // The two calls that send it.

  lemma FirstCall(bufs: seq<TxBuf>)
    requires Lone(bufs, 0) && bufs[0].len == |CARRIER| && CARRIER <= bufs[0].data
    requires bufs[0].hdr == CmdHdr(0, true, false, 1, 0)
    ensures var r := Tx(AsWritten, 13, bufs).bufs;
            && Lone(r, 0) && r[0].len == 6 && r[0].data == bufs[0].data && r[0].hdr == CmdHdr(0, false, true, 1, 5)
  {
    LoneCall(13, bufs, 0);
    assert Room(13, MAC_HDR_LEN) == 5;
  }

  lemma SecondCall(bufs: seq<TxBuf>)
    requires Lone(bufs, 0) && bufs[0].len == 6 && CARRIER <= bufs[0].data
    requires bufs[0].hdr == CmdHdr(0, false, true, 1, 5)
    ensures var r := Tx(AsWritten, 18, bufs);
            r.bufs[0].len == 0 && r.frame == [Pdu(CmdHdr(0, false, true, 1, 5), [7, 0, 1, 5, 0, 9])]
  {
    LoneCall(18, bufs, 0);
    assert Room(18, MAC_HDR_LEN) == 10;
    assert bufs[0].data[..6] == CARRIER[..6] == [7, 0, 1, 5, 0, 9];
  }

  lemma CarrierInstalled(data: seq<seq<UINT8>>)
    requires |data| == MAX_CMD_TYPE
    ensures var s := Exec(AsWritten, Init(data), [Install(0, CARRIER)]);
            && s.hists[0] == Hist([CARRIER], [[]])
            && Lone(s.bufs, 0) && s.bufs[0].len == |CARRIER| && CARRIER <= s.bufs[0].data
            && s.bufs[0].hdr == CmdHdr(0, true, false, 1, 0)
  {
    ExecOne(AsWritten, Init(data), [], Install(0, CARRIER));
    assert [] + [Install(0, CARRIER)] == [Install(0, CARRIER)];
  }

  /** So without honest frames something can arrive, but not what was sent. */
  lemma GarbageExample(data: seq<seq<UINT8>>) returns (acts: seq<Action>)
    requires |data| == MAX_CMD_TYPE
    ensures var s := Exec(AsWritten, Init(data), acts);
            s.hists[0].msgs == [CARRIER] && s.bufs[0].len == 0 && s.rx[0].Complete() && s.rx[0].bytes == [9]
  {
    acts := [Install(0, CARRIER)];
    var s1 := Exec(AsWritten, Init(data), acts);
    var s2 := Step(AsWritten, s1, Send(13));
    CarrierInstalled(data);
    FirstCall(s1.bufs);
    SecondCall(s2.bufs);
    DeliverInner(s2.rx);
    ExecOne(AsWritten, Init(data), acts, Send(13));
    ExecOne(AsWritten, Init(data), acts + [Send(13)], Send(18));
    acts := acts + [Send(13)] + [Send(18)];
  }
}
