/** Packing pending messages into a frame, src/cmd_handle.c lines 170-283, as functions on values.

    Two orders of the steps in one fragment are modelled.  AsWritten is the code: the header is
    copied before it is updated (lines 191 and 198 against 202-209) and the data is always taken
    from the start of the buffer.  AsMeant sets `fragment` and `sublen`, copies, clears `firstpkg`,
    and moves past the bytes it sent.  What is proved here about lengths, header bits and progress
    holds for both. */
module CmdTransmit {
  import opened Arithmetic
  import opened CmdPdu

  datatype Order = AsWritten | AsMeant

  /** A send buffer: `len` bytes at the start of `data` are still to be sent. */
  datatype TxBuf = TxBuf(len: nat, hdr: CmdHdr, data: seq<UINT8>) {
    predicate Valid() {
      len <= |data| && len <= HELLO_LEN
    }
  }

  ghost predicate AllValid(bufs: seq<TxBuf>) {
    forall i :: 0 <= i < |bufs| ==> bufs[i].Valid()
  }

  /** (size_t)(int)(max_maclen - wlen): the unsigned difference wraps at 32 bits, becomes an int,
      and is sign-extended to 64 bits by the comparisons with sizeof. */
  function Room(budget: UINT32, wlen: nat): nat {
    var u := (budget - wlen) % 0x1_0000_0000;
    if u < 0x8000_0000 then u else u + 0xFFFF_FFFF_0000_0000
  }

  /** One fragment of n payload bytes: what is copied to the frame and what is left. */
  function Fragment(o: Order, b: TxBuf, n: nat): (Pdu, TxBuf)
    requires b.Valid() && 0 < n <= b.len
  {
    var left := b.len - n;
    var h := b.hdr.(fragment := left > 0, sublen := n + CMD_HDR_LEN);
    match o
    case AsWritten => (Pdu(b.hdr, b.data[..n]), TxBuf(left, h.(firstpkg := false), b.data))
    case AsMeant => (Pdu(h, b.data[..n]), TxBuf(left, h.(firstpkg := false), b.data[n..]))
  }

  /** The room is the exact difference unless that does not fit an int; then everything fits. */
  lemma RoomExact(budget: UINT32, wlen: nat)
    requires wlen <= budget
    ensures Room(budget, wlen) >= budget - wlen
    ensures Room(budget, wlen) < 0x8000_0000 ==> Room(budget, wlen) == budget - wlen
    ensures budget - wlen < 0x8000_0000 ==> Room(budget, wlen) == budget - wlen
    ensures budget - wlen >= 0x8000_0000 ==> Room(budget, wlen) - (budget - wlen) == 0xFFFF_FFFF_0000_0000
  {
  }

  /** Below what is already written, the difference wraps around to almost 2^64. */
  lemma RoomWraps(budget: UINT32, wlen: nat)
    requires budget < wlen <= budget + 0x8000_0000
    ensures Room(budget, wlen) == 0x1_0000_0000_0000_0000 - (wlen - budget)
  {
  }

  datatype TxState = TxState(bufs: seq<TxBuf>, frame: seq<Pdu>, wlen: nat, stopped: bool)

  /** A fragment of n payload bytes of type i goes into the frame. */
  function Take(o: Order, st: TxState, i: nat, n: nat): (r: TxState)
    requires AllValid(st.bufs) && i < |st.bufs| && 0 < n <= st.bufs[i].len
    ensures AllValid(r.bufs) && |r.bufs| == |st.bufs|
  {
    var (p, b') := Fragment(o, st.bufs[i], n);
    TxState(st.bufs[i := b'], st.frame + [p], st.wlen + n + CMD_HDR_LEN, false)
  }

  /** One iteration of the loop over the types. */
  function TxType(o: Order, budget: UINT32, st: TxState, i: nat): (r: TxState)
    requires AllValid(st.bufs) && i < |st.bufs|
    ensures AllValid(r.bufs) && |r.bufs| == |st.bufs|
  {
    var b, room := st.bufs[i], Room(budget, st.wlen);
    if st.stopped || b.len == 0 then st
    else if room > CMD_HDR_LEN then
      Take(o, st, i, if b.len + CMD_HDR_LEN <= room then b.len else room - CMD_HDR_LEN)
    else st.(stopped := true)
  }

  function TxUpTo(o: Order, budget: UINT32, bufs: seq<TxBuf>, n: nat): (r: TxState)
    requires AllValid(bufs) && n <= |bufs|
    ensures AllValid(r.bufs) && |r.bufs| == |bufs|
  {
    if n == 0 then TxState(bufs, [], MAC_HDR_LEN, false)
    else TxType(o, budget, TxUpTo(o, budget, bufs, n - 1), n - 1)
  }

  /** A whole call. */
  function Tx(o: Order, budget: UINT32, bufs: seq<TxBuf>): (r: TxState)
    requires AllValid(bufs)
    ensures AllValid(r.bufs) && |r.bufs| == |bufs|
  {
    TxUpTo(o, budget, bufs, |bufs|)
  }

  // ----- what one call does to each type

  /** The buffer is untouched, or exactly one fragment was taken from it. */
  ghost predicate Advanced(o: Order, b: TxBuf, b': TxBuf)
    requires b.Valid()
  {
    b' == b || (b'.len < b.len && b' == Fragment(o, b, b.len - b'.len).1)
  }

  ghost predicate AllAdvanced(o: Order, before: seq<TxBuf>, after: seq<TxBuf>) {
    && AllValid(before) && |after| == |before|
    && forall i :: 0 <= i < |before| ==> Advanced(o, before[i], after[i])
  }

  /** The fragments of a call, in type order: one for each buffer that got shorter. */
  function Sent(o: Order, b: TxBuf, b': TxBuf): seq<Pdu>
    requires b.Valid()
  {
    if b'.len < b.len then [Fragment(o, b, b.len - b'.len).0] else []
  }

  function Frame(o: Order, before: seq<TxBuf>, after: seq<TxBuf>, n: nat): seq<Pdu>
    requires AllValid(before) && n <= |before| && |after| == |before|
  {
    if n == 0 then [] else Frame(o, before, after, n - 1) + Sent(o, before[n - 1], after[n - 1])
  }

  /** Frame bytes that the fragments of one type cost: a header and the decrease of `len`. */
  function Cost(b: TxBuf, b': TxBuf): nat {
    if b'.len < b.len then CMD_HDR_LEN + b.len - b'.len else 0
  }

  function Charge(before: seq<TxBuf>, after: seq<TxBuf>, n: nat): nat
    requires n <= |before| && |after| == |before|
  {
    if n == 0 then 0 else Charge(before, after, n - 1) + Cost(before[n - 1], after[n - 1])
  }

  function Pending(bufs: seq<TxBuf>, n: nat): nat
    requires n <= |bufs|
  {
    if n == 0 then 0 else Pending(bufs, n - 1) + bufs[n - 1].len
  }

  lemma {:induction false} SameBelow(o: Order, before: seq<TxBuf>, a: seq<TxBuf>, c: seq<TxBuf>, n: nat)
    requires AllValid(before) && n <= |before| == |a| == |c|
    requires forall i :: 0 <= i < n ==> a[i] == c[i]
    ensures Frame(o, before, a, n) == Frame(o, before, c, n)
    ensures Charge(before, a, n) == Charge(before, c, n)
    ensures Pending(a, n) == Pending(c, n)
  {
    if n > 0 {
      SameBelow(o, before, a, c, n - 1);
    }
  }

  /** One iteration touches one type only. */
  ghost predicate Stepped(o: Order, st: TxState, r: TxState, i: nat) {
    && AllValid(st.bufs) && i < |st.bufs| == |r.bufs|
    && (forall j :: 0 <= j < |st.bufs| && j != i ==> r.bufs[j] == st.bufs[j])
    && Advanced(o, st.bufs[i], r.bufs[i])
    && r.frame == st.frame + Sent(o, st.bufs[i], r.bufs[i])
    && r.wlen == st.wlen + Cost(st.bufs[i], r.bufs[i])
  }

  lemma TxTypeStep(o: Order, budget: UINT32, st: TxState, i: nat)
    requires AllValid(st.bufs) && i < |st.bufs|
    ensures Stepped(o, st, TxType(o, budget, st, i), i)
  {
    var b, room := st.bufs[i], Room(budget, st.wlen);
    if !st.stopped && b.len > 0 && room > CMD_HDR_LEN {
      TakeStep(o, st, i, if b.len + CMD_HDR_LEN <= room then b.len else room - CMD_HDR_LEN);
    } else {
      IdleStep(o, st, TxType(o, budget, st, i), i);
    }
  }

  lemma IdleStep(o: Order, st: TxState, r: TxState, i: nat)
    requires AllValid(st.bufs) && i < |st.bufs| && r == st.(stopped := r.stopped)
    ensures Stepped(o, st, r, i)
  {
    assert Sent(o, st.bufs[i], r.bufs[i]) == [] && st.frame + [] == st.frame;
  }

  lemma TakeStep(o: Order, st: TxState, i: nat, n: nat)
    requires AllValid(st.bufs) && i < |st.bufs| && 0 < n <= st.bufs[i].len
    ensures Stepped(o, st, Take(o, st, i, n), i)
  {
    var b' := Fragment(o, st.bufs[i], n).1;
    assert st.bufs[i].len - b'.len == n;
  }

  /** After n types: the frame is made of one fragment for each type that got shorter, and its
      length is the MAC header plus what those fragments cost. */
  ghost predicate Accounted(o: Order, bufs: seq<TxBuf>, r: TxState, n: nat) {
    && AllAdvanced(o, bufs, r.bufs) && n <= |bufs|
    && (forall i :: n <= i < |bufs| ==> r.bufs[i] == bufs[i])
    && r.frame == Frame(o, bufs, r.bufs, n)
    && r.wlen == MAC_HDR_LEN + Charge(bufs, r.bufs, n)
  }

  lemma AccountedStep(o: Order, bufs: seq<TxBuf>, st: TxState, r: TxState, n: nat)
    requires 0 < n <= |bufs| && Accounted(o, bufs, st, n - 1) && Stepped(o, st, r, n - 1)
    ensures Accounted(o, bufs, r, n)
  {
    SameBelow(o, bufs, st.bufs, r.bufs, n - 1);
  }

  lemma SteppedAt(o: Order, budget: UINT32, bufs: seq<TxBuf>, n: nat)
    requires AllValid(bufs) && 0 < n <= |bufs|
    ensures Stepped(o, TxUpTo(o, budget, bufs, n - 1), TxUpTo(o, budget, bufs, n), n - 1)
  {
    var st, r := TxUpTo(o, budget, bufs, n - 1), TxUpTo(o, budget, bufs, n);
    TxTypeStep(o, budget, st, n - 1);
    assert r == TxType(o, budget, st, n - 1);
    assert Stepped(o, st, r, n - 1);
  }

  lemma {:induction false} TxAccountsUpTo(o: Order, budget: UINT32, bufs: seq<TxBuf>, n: nat)
    requires AllValid(bufs) && n <= |bufs|
    ensures Accounted(o, bufs, TxUpTo(o, budget, bufs, n), n)
  {
    if n > 0 {
      var st := TxUpTo(o, budget, bufs, n - 1);
      TxAccountsUpTo(o, budget, bufs, n - 1);
      SteppedAt(o, budget, bufs, n);
      AccountedStep(o, bufs, st, TxUpTo(o, budget, bufs, n), n);
    }
  }

  /** Conservation over a whole call. */
  lemma TxAccounts(o: Order, budget: UINT32, bufs: seq<TxBuf>)
    requires AllValid(bufs)
    ensures Accounted(o, bufs, Tx(o, budget, bufs), |bufs|)
  {
    TxAccountsUpTo(o, budget, bufs, |bufs|);
  }

  lemma SentBytes(o: Order, b: TxBuf, b': TxBuf, f: seq<Pdu>)
    requires b.Valid() && Advanced(o, b, b')
    ensures |Serialize(f + Sent(o, b, b'))| == |Serialize(f)| + Cost(b, b')
  {
    if b'.len < b.len {
      SerializeAppend(f, Fragment(o, b, b.len - b'.len).0);
    } else {
      assert f + Sent(o, b, b') == f;
    }
  }

  /** The bytes written behind the MAC header are the serialised fragments. */
  lemma {:induction false} FrameBytes(o: Order, before: seq<TxBuf>, after: seq<TxBuf>, n: nat)
    requires AllAdvanced(o, before, after) && n <= |before|
    ensures |Serialize(Frame(o, before, after, n))| == Charge(before, after, n)
  {
    if n > 0 {
      FrameBytes(o, before, after, n - 1);
      SentBytes(o, before[n - 1], after[n - 1], Frame(o, before, after, n - 1));
    }
  }

  // ----- greedy in type order

  /** Types before the cut are drained, types after it untouched. */
  ghost predicate Greedy(before: seq<TxBuf>, after: seq<TxBuf>, n: nat, cut: nat)
    requires n <= |before| && |after| == |before|
  {
    && cut <= n
    && (forall i :: 0 <= i < cut ==> after[i].len == 0)
    && (forall i :: cut < i < n ==> after[i] == before[i])
  }

  /** The cut after n types: what is left of the cut type means that the budget is used up. */
  ghost predicate CutAt(bufs: seq<TxBuf>, r: TxState, budget: UINT32, n: nat, cut: nat) {
    && n <= |bufs| == |r.bufs|
    && Greedy(bufs, r.bufs, n, cut)
    && (cut < n ==> r.stopped || r.wlen == budget)
    && (r.stopped ==> budget <= r.wlen + CMD_HDR_LEN)
    && r.wlen <= budget
  }

  /** How far one iteration gets within the budget. */
  ghost predicate StepGreedy(st: TxState, r: TxState, budget: UINT32, i: nat) {
    && i < |st.bufs| == |r.bufs|
    && r.wlen <= budget
    && (r.bufs[i].len == 0 || r.stopped || r.wlen == budget)
    && (r.stopped ==> st.stopped || budget <= r.wlen + CMD_HDR_LEN)
    && r.wlen >= st.wlen
    && (st.stopped || st.wlen == budget ==> r.bufs == st.bufs && (r.stopped || r.wlen == budget))
  }

  lemma TxTypeGreedy(o: Order, budget: UINT32, st: TxState, i: nat)
    requires AllValid(st.bufs) && i < |st.bufs| && st.wlen <= budget
    ensures StepGreedy(st, TxType(o, budget, st, i), budget, i)
  {
    RoomExact(budget, st.wlen);
  }

  lemma CutStep(o: Order, bufs: seq<TxBuf>, st: TxState, r: TxState, budget: UINT32, n: nat, cut: nat)
    returns (cut': nat)
    requires 0 < n <= |bufs| && CutAt(bufs, st, budget, n - 1, cut) && st.bufs[n - 1] == bufs[n - 1]
    requires Stepped(o, st, r, n - 1) && StepGreedy(st, r, budget, n - 1)
    ensures CutAt(bufs, r, budget, n, cut')
  {
    cut' := if cut == n - 1 && r.bufs[cut].len == 0 then n else cut;
  }

  /** The loop has not touched the types ahead of it. */
  lemma NotYet(o: Order, budget: UINT32, bufs: seq<TxBuf>, n: nat)
    requires AllValid(bufs) && n <= |bufs|
    ensures forall i :: n <= i < |bufs| ==> TxUpTo(o, budget, bufs, n).bufs[i] == bufs[i]
  {
    TxAccountsUpTo(o, budget, bufs, n);
  }

  lemma CutNext(o: Order, budget: UINT32, bufs: seq<TxBuf>, n: nat, cut: nat) returns (cut': nat)
    requires AllValid(bufs) && 0 < n <= |bufs| && CutAt(bufs, TxUpTo(o, budget, bufs, n - 1), budget, n - 1, cut)
    ensures CutAt(bufs, TxUpTo(o, budget, bufs, n), budget, n, cut')
  {
    var st, r := TxUpTo(o, budget, bufs, n - 1), TxUpTo(o, budget, bufs, n);
    NotYet(o, budget, bufs, n - 1);
    StepAt(o, budget, bufs, n);
    cut' := CutStep(o, bufs, st, r, budget, n, cut);
  }

  lemma StepAt(o: Order, budget: UINT32, bufs: seq<TxBuf>, n: nat)
    requires AllValid(bufs) && 0 < n <= |bufs| && TxUpTo(o, budget, bufs, n - 1).wlen <= budget
    ensures var st, r := TxUpTo(o, budget, bufs, n - 1), TxUpTo(o, budget, bufs, n);
            Stepped(o, st, r, n - 1) && StepGreedy(st, r, budget, n - 1)
  {
    SteppedAt(o, budget, bufs, n);
    GreedyAt(o, budget, bufs, n);
  }

  lemma GreedyAt(o: Order, budget: UINT32, bufs: seq<TxBuf>, n: nat)
    requires AllValid(bufs) && 0 < n <= |bufs| && TxUpTo(o, budget, bufs, n - 1).wlen <= budget
    ensures StepGreedy(TxUpTo(o, budget, bufs, n - 1), TxUpTo(o, budget, bufs, n), budget, n - 1)
  {
    var st, r := TxUpTo(o, budget, bufs, n - 1), TxUpTo(o, budget, bufs, n);
    TxTypeGreedy(o, budget, st, n - 1);
    assert r == TxType(o, budget, st, n - 1);
    assert StepGreedy(st, r, budget, n - 1);
  }

  lemma {:induction false} TxGreedyUpTo(o: Order, budget: UINT32, bufs: seq<TxBuf>, n: nat) returns (cut: nat)
    requires AllValid(bufs) && n <= |bufs| && MAC_HDR_LEN <= budget
    ensures CutAt(bufs, TxUpTo(o, budget, bufs, n), budget, n, cut)
  {
    if n == 0 {
      cut := 0;
    } else {
      cut := TxGreedyUpTo(o, budget, bufs, n - 1);
      cut := CutNext(o, budget, bufs, n, cut);
    }
  }

  /** Given room for the MAC header, a call drains the types in order, never exceeds its budget, and
      leaves less of it than a header and a byte unless everything is sent. */
  lemma TxGreedy(o: Order, budget: UINT32, bufs: seq<TxBuf>)
    requires AllValid(bufs) && MAC_HDR_LEN <= budget
    ensures exists cut :: Greedy(bufs, Tx(o, budget, bufs).bufs, |bufs|, cut)
    ensures Tx(o, budget, bufs).wlen == MAC_HDR_LEN + Charge(bufs, Tx(o, budget, bufs).bufs, |bufs|)
    ensures Tx(o, budget, bufs).wlen <= budget
    ensures (exists i :: 0 <= i < |bufs| && Tx(o, budget, bufs).bufs[i].len > 0) ==>
              budget - Tx(o, budget, bufs).wlen <= CMD_HDR_LEN
  {
    TxAccounts(o, budget, bufs);
    var cut := TxGreedyUpTo(o, budget, bufs, |bufs|);
    assert Greedy(bufs, Tx(o, budget, bufs).bufs, |bufs|, cut);
  }

  // ----- progress

  ghost predicate AllDrained(bufs: seq<TxBuf>, n: nat)
    requires n <= |bufs|
  {
    forall i :: 0 <= i < n ==> bufs[i].len == 0
  }

  lemma {:induction false} PendingZero(bufs: seq<TxBuf>, n: nat)
    requires n <= |bufs|
    ensures Pending(bufs, n) == 0 <==> AllDrained(bufs, n)
  {
    if n > 0 {
      PendingZero(bufs, n - 1);
    }
  }

  /** The decrease in the total pending length is what was sent. */
  lemma {:induction false} PendingDrop(o: Order, before: seq<TxBuf>, after: seq<TxBuf>, n: nat)
    requires AllAdvanced(o, before, after) && n <= |before|
    ensures Pending(after, n) <= Pending(before, n)
    ensures Pending(after, n) == Pending(before, n) <==> forall i :: 0 <= i < n ==> after[i] == before[i]
    ensures Pending(after, n) == Pending(before, n) <==> Charge(before, after, n) == 0
  {
    if n > 0 {
      PendingDrop(o, before, after, n - 1);
    }
  }

  /** What the loop has done before it meets the first pending type: nothing. */
  lemma {:induction false} TxBeforeFirst(o: Order, budget: UINT32, bufs: seq<TxBuf>, n: nat)
    requires AllValid(bufs) && n <= |bufs| && AllDrained(bufs, n)
    ensures TxUpTo(o, budget, bufs, n) == TxState(bufs, [], MAC_HDR_LEN, false)
  {
    if n > 0 {
      TxBeforeFirst(o, budget, bufs, n - 1);
    }
  }

  lemma {:induction false} TxStopped(o: Order, budget: UINT32, bufs: seq<TxBuf>, k: nat, n: nat)
    requires AllValid(bufs) && k <= n <= |bufs| && TxUpTo(o, budget, bufs, k).stopped
    ensures TxUpTo(o, budget, bufs, n) == TxUpTo(o, budget, bufs, k)
  {
    if k < n {
      TxStopped(o, budget, bufs, k, n - 1);
    }
  }

  lemma {:induction false} TxShrinks(o: Order, budget: UINT32, bufs: seq<TxBuf>, k: nat, n: nat)
    requires AllValid(bufs) && k < n <= |bufs| && TxUpTo(o, budget, bufs, k + 1).bufs[k].len < bufs[k].len
    ensures TxUpTo(o, budget, bufs, n).bufs[k].len < bufs[k].len
  {
    if k + 1 < n {
      TxShrinks(o, budget, bufs, k, n - 1);
      TxTypeStep(o, budget, TxUpTo(o, budget, bufs, n - 1), n - 1);
    }
  }

  lemma FirstPending(bufs: seq<TxBuf>, n: nat) returns (k: nat)
    requires n <= |bufs| && Pending(bufs, n) > 0
    ensures k < n && AllDrained(bufs, k) && bufs[k].len > 0
  {
    PendingZero(bufs, n);
    k := 0;
    while bufs[k].len == 0
      invariant k < n && AllDrained(bufs, k) && !AllDrained(bufs, n)
      decreases n - k
    {
      k := k + 1;
      assert k == n ==> AllDrained(bufs, n);
    }
  }

  /** The first pending type gets a fragment if there is room for one. */
  lemma TxFirst(o: Order, budget: UINT32, bufs: seq<TxBuf>, k: nat)
    requires AllValid(bufs) && k < |bufs| && AllDrained(bufs, k) && bufs[k].len > 0
    ensures var r := TxUpTo(o, budget, bufs, k + 1);
            if CanSend(budget)
            then r.bufs[k].len < bufs[k].len
            else r == TxState(bufs, [], MAC_HDR_LEN, true)
  {
    TxBeforeFirst(o, budget, bufs, k);
    FirstRoom(budget);
  }

  lemma TxFirstDecides(o: Order, budget: UINT32, bufs: seq<TxBuf>, k: nat)
    requires AllValid(bufs) && k < |bufs| && AllDrained(bufs, k) && bufs[k].len > 0
    ensures if CanSend(budget) then Tx(o, budget, bufs).bufs[k] != bufs[k] else Tx(o, budget, bufs).bufs == bufs
  {
    TxFirst(o, budget, bufs, k);
    if CanSend(budget) {
      TxShrinks(o, budget, bufs, k, |bufs|);
    } else {
      TxStopped(o, budget, bufs, k + 1, |bufs|);
    }
  }

  /** A fragment of one byte fits behind the MAC header; below 8 the room wraps around and counts
      as ample. */
  predicate CanSend(budget: UINT32) {
    budget > MAC_HDR_LEN + CMD_HDR_LEN || budget < MAC_HDR_LEN
  }

  /** A call makes progress exactly when something is pending and a fragment can be sent. */
  lemma TxProgress(o: Order, budget: UINT32, bufs: seq<TxBuf>)
    requires AllValid(bufs)
    ensures Pending(Tx(o, budget, bufs).bufs, |bufs|) <= Pending(bufs, |bufs|)
    ensures Pending(Tx(o, budget, bufs).bufs, |bufs|) < Pending(bufs, |bufs|) <==>
            Pending(bufs, |bufs|) > 0 && (budget > 12 || budget < 8)
  {
    TxAccounts(o, budget, bufs);
    PendingDrop(o, bufs, Tx(o, budget, bufs).bufs, |bufs|);
    if Pending(bufs, |bufs|) > 0 {
      var k := FirstPending(bufs, |bufs|);
      TxFirstDecides(o, budget, bufs, k);
    }
  }

  lemma FirstRoom(budget: UINT32)
    ensures Room(budget, MAC_HDR_LEN) > CMD_HDR_LEN <==> CanSend(budget)
  {
  }

  /** The bytes written stay within the budget exactly when the MAC header fits or nothing is
      pending: below 8 the guard of line 185 is true by wrap-around. */
  lemma TxFitsIff(o: Order, budget: UINT32, bufs: seq<TxBuf>)
    requires AllValid(bufs)
    ensures var r := Tx(o, budget, bufs);
            (r.frame == [] || r.wlen <= budget) <==> (MAC_HDR_LEN <= budget || Pending(bufs, |bufs|) == 0)
  {
    var r := Tx(o, budget, bufs);
    TxAccounts(o, budget, bufs);
    TxProgress(o, budget, bufs);
    PendingDrop(o, bufs, r.bufs, |bufs|);
    FrameBytes(o, bufs, r.bufs, |bufs|);
    if MAC_HDR_LEN <= budget {
      TxGreedy(o, budget, bufs);
    } else if r.frame == [] {
      assert Charge(bufs, r.bufs, |bufs|) == 0;
    } else {
      FrameEmpty(o, bufs, r.bufs, |bufs|);
    }
  }

  lemma {:induction false} FrameEmpty(o: Order, before: seq<TxBuf>, after: seq<TxBuf>, n: nat)
    requires AllAdvanced(o, before, after) && n <= |before|
    ensures Frame(o, before, after, n) == [] <==> Charge(before, after, n) == 0
  {
    if n > 0 {
      FrameEmpty(o, before, after, n - 1);
    }
  }

  /** The number of calls under a constant budget until nothing is pending. */
  function Calls(o: Order, budget: UINT32, bufs: seq<TxBuf>): nat
    requires AllValid(bufs) && budget > MAC_HDR_LEN + CMD_HDR_LEN
    decreases Pending(bufs, |bufs|)
  {
    TxProgress(o, budget, bufs);
    if Pending(bufs, |bufs|) == 0 then 0 else 1 + Calls(o, budget, Tx(o, budget, bufs).bufs)
  }

  function CeilDiv(n: nat, d: nat): nat
    requires d > 0
  {
    (n + d - 1) / d
  }

  lemma CeilDivStep(n: nat, d: nat)
    requires n > 0 && d > 0
    ensures CeilDiv(n, d) == 1 + CeilDiv(if n < d then 0 else n - d, d)
  {
    var q, r := (n - 1) / d, (n - 1) % d;
    assert n + d - 1 == (q + 1) * d + r;
    DivOf(q + 1, d, r);
    if n >= d {
      DivOf(q, d, r);
    } else {
      DivOf(0, d, n - 1);
      DivOf(0, d, d - 1);
    }
  }

  ghost predicate Lone(bufs: seq<TxBuf>, t: nat) {
    AllValid(bufs) && t < |bufs| && forall i :: 0 <= i < |bufs| && i != t ==> bufs[i].len == 0
  }

  lemma {:induction false} PendingLone(bufs: seq<TxBuf>, t: nat, n: nat)
    requires Lone(bufs, t) && n <= |bufs|
    ensures Pending(bufs, n) == if t < n then bufs[t].len else 0
  {
    if n > 0 {
      PendingLone(bufs, t, n - 1);
    }
  }

  lemma LoneStep(o: Order, budget: UINT32, bufs: seq<TxBuf>, t: nat)
    requires Lone(bufs, t) && budget > MAC_HDR_LEN + CMD_HDR_LEN && bufs[t].len > 0
    ensures var d, r := budget - MAC_HDR_LEN - CMD_HDR_LEN, Tx(o, budget, bufs).bufs;
            Lone(r, t) && r[t].len == if bufs[t].len < d then 0 else bufs[t].len - d
  {
    TxBeforeFirst(o, budget, bufs, t);
    RoomExact(budget, MAC_HDR_LEN);
    LoneRest(o, budget, bufs, t, |bufs|);
  }

  lemma {:induction false} LoneRest(o: Order, budget: UINT32, bufs: seq<TxBuf>, t: nat, n: nat)
    requires Lone(bufs, t) && t < n <= |bufs|
    ensures TxUpTo(o, budget, bufs, n) == TxUpTo(o, budget, bufs, t + 1)
  {
    if t + 1 < n {
      LoneRest(o, budget, bufs, t, n - 1);
      TxAccountsUpTo(o, budget, bufs, n - 1);
    }
  }

  /** A lone message of n bytes under a constant budget B takes exactly ceil(n / (B - 12)) calls. */
  lemma {:induction false} LoneMessageCalls(o: Order, budget: UINT32, bufs: seq<TxBuf>, t: nat)
    requires Lone(bufs, t) && budget > MAC_HDR_LEN + CMD_HDR_LEN
    ensures Calls(o, budget, bufs) == CeilDiv(bufs[t].len, budget - MAC_HDR_LEN - CMD_HDR_LEN)
    decreases bufs[t].len
  {
    var d := budget - MAC_HDR_LEN - CMD_HDR_LEN;
    PendingLone(bufs, t, |bufs|);
    if bufs[t].len > 0 {
      LoneStep(o, budget, bufs, t);
      LoneMessageCalls(o, budget, Tx(o, budget, bufs).bufs, t);
      CeilDivStep(bufs[t].len, d);
    } else {
      DivOf(0, d, d - 1);
    }
  }
}
