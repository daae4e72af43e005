/** Reassembly of fragments, src/cmd_handle.c lines 17-67, as a function on values, and what it
    does to an arbitrary history of PDUs. */
module CmdReassembly {
  import opened CmdPdu

  /** A receive buffer: the stored header and the first `len` bytes of the data area. */
  datatype RxState = RxState(hdr: CmdHdr, bytes: seq<UINT8>) {
    predicate Complete() {
      bytes != [] && hdr.firstpkg && !hdr.fragment
    }

    /** Whether a PDU is appended; every other PDU replaces the contents. */
    predicate Continues(p: Pdu) {
      && bytes != []
      && hdr.firstpkg && hdr.fragment
      && hdr.index == p.hdr.index && !p.hdr.firstpkg
    }

    function Combine(p: Pdu): RxState {
      if Continues(p) then
        RxState(hdr.(fragment := p.hdr.fragment), bytes + p.payload)
      else
        RxState(p.hdr, p.payload)
    }
  }

  const NO_HDR := CmdHdr(0, false, false, 0, 0)

  function InitState(t: UINT8): RxState {
    RxState(NO_HDR.(pduType := t), [])
  }

  /** The buffer after a history of PDUs, oldest first. */
  function Run(st: RxState, h: seq<Pdu>): RxState {
    if h == [] then st else Run(st, h[..|h| - 1]).Combine(h[|h| - 1])
  }

  function Concat(h: seq<Pdu>): seq<UINT8> {
    if h == [] then [] else Concat(h[..|h| - 1]) + h[|h| - 1].payload
  }

  /** A first fragment with data, then non-first fragments of the same index, each announced by
      the `fragment` bit of the one before. */
  ghost predicate Chain(r: seq<Pdu>) {
    && r != []
    && (|r| > 1 ==> r[0].hdr.firstpkg && r[0].payload != [])
    && (forall i :: 0 < i < |r| ==> !r[i].hdr.firstpkg && r[i].hdr.index == r[0].hdr.index)
    && (forall i :: 0 <= i < |r| - 1 ==> r[i].hdr.fragment)
  }

  /** A chain that starts with a first fragment and ends with a last one: one whole message. */
  ghost predicate MessageRun(r: seq<Pdu>) {
    Chain(r) && r[0].hdr.firstpkg && r[0].payload != [] && !r[|r| - 1].hdr.fragment
  }

  /** The buffer holds exactly the chain r. */
  ghost predicate Holds(st: RxState, r: seq<Pdu>)
    requires r != []
  {
    st.hdr == r[0].hdr.(fragment := r[|r| - 1].hdr.fragment) && st.bytes == Concat(r)
  }

  lemma {:induction false} ConcatFirst(r: seq<Pdu>)
    requires r != []
    ensures |Concat(r)| >= |r[0].payload|
  {
    if |r| > 1 {
      ConcatFirst(r[..|r| - 1]);
    }
  }

  lemma ConcatOne(p: Pdu)
    ensures Concat([p]) == p.payload
  {
    assert [p][..0] == [];
  }

  /** Whatever was received, the buffer holds the PDUs since some point, and these form a chain. */
  lemma {:induction false} RunHoldsAChain(st: RxState, h: seq<Pdu>) returns (k: nat)
    requires h != []
    requires st.bytes == []
    ensures k < |h| && Chain(h[k..]) && Holds(Run(st, h), h[k..])
  {
    var h0, p := h[..|h| - 1], h[|h| - 1];
    if h0 != [] {
      k := RunHoldsAChain(st, h0);
      if Run(st, h0).Continues(p) {
        ChainExtends(Run(st, h0), h0[k..], p);
        assert h[k..] == h0[k..] + [p];
        return;
      }
    }
    k := |h| - 1;
    assert h[k..] == [p];
    ConcatOne(p);
  }

  lemma ChainExtends(st: RxState, r: seq<Pdu>, p: Pdu)
    requires Chain(r) && Holds(st, r) && st.Continues(p)
    ensures Chain(r + [p]) && Holds(st.Combine(p), r + [p])
  {
    if |r| == 1 {
      ConcatOne(r[0]);
      assert r == [r[0]];
    }
    assert (r + [p])[..|r|] == r;
  }

  /** A first fragment is never appended, so a message run is held from its first PDU on,
      whatever the buffer contained before. */
  lemma {:induction false} RunOfChain(st: RxState, r: seq<Pdu>)
    requires Chain(r) && r[0].hdr.firstpkg && r[0].payload != []
    ensures Holds(Run(st, r), r)
  {
    var r0, p := r[..|r| - 1], r[|r| - 1];
    if r0 == [] {
      assert r == [p];
      ConcatOne(p);
    } else {
      RunOfChain(st, r0);
      ConcatFirst(r0);
      assert r0[|r0| - 1] == r[|r0| - 1];
    }
  }

  lemma RunOne(st: RxState, p: Pdu)
    ensures Run(st, [p]) == st.Combine(p)
  {
    assert [p][..0] == [];
  }

  lemma {:induction false} RunAppend(st: RxState, g: seq<Pdu>, h: seq<Pdu>)
    ensures Run(st, g + h) == Run(Run(st, g), h)
  {
    if h == [] {
      assert g + h == g;
    } else {
      RunAppend(st, g, h[..|h| - 1]);
      assert (g + h)[..|g + h| - 1] == g + h[..|h| - 1];
    }
  }

  /** A buffer reports a complete message if and only if the history ends with one; its contents
      are then exactly the payloads of that message. */
  lemma CompleteIffMessageRun(st: RxState, h: seq<Pdu>)
    requires st.bytes == []
    ensures Run(st, h).Complete() <==> exists k :: 0 <= k < |h| && MessageRun(h[k..])
    ensures forall k :: 0 <= k < |h| && MessageRun(h[k..]) ==> Run(st, h).bytes == Concat(h[k..])
  {
    forall k | 0 <= k < |h| && MessageRun(h[k..])
      ensures Holds(Run(st, h), h[k..]) && Run(st, h).Complete()
    {
      assert h == h[..k] + h[k..];
      RunAppend(st, h[..k], h[k..]);
      RunOfChain(Run(st, h[..k]), h[k..]);
      ConcatFirst(h[k..]);
    }
    if Run(st, h).Complete() {
      var k := RunHoldsAChain(st, h);
      ConcatOne(h[k]);
      assert |h[k..]| == 1 ==> h[k..] == [h[k]];
      assert MessageRun(h[k..]);
    }
  }

  /** Continuations alone never complete anything. */
  lemma NoFirstNeverComplete(st: RxState, h: seq<Pdu>)
    requires st.bytes == [] && forall i :: 0 <= i < |h| ==> !h[i].hdr.firstpkg
    ensures !Run(st, h).Complete()
  {
    CompleteIffMessageRun(st, h);
  }

  // ----- one buffer for each type

  /** The receive buffers of all types after one more PDU. */
  function CombineAll(sts: seq<RxState>, p: Pdu): seq<RxState>
    requires p.hdr.pduType < |sts|
  {
    sts[p.hdr.pduType := sts[p.hdr.pduType].Combine(p)]
  }

  predicate Typed(h: seq<Pdu>, n: nat) {
    forall i :: 0 <= i < |h| ==> h[i].hdr.pduType < n
  }

  function RunAll(sts: seq<RxState>, h: seq<Pdu>): (r: seq<RxState>)
    requires Typed(h, |sts|)
    ensures |r| == |sts|
  {
    if h == [] then sts else CombineAll(RunAll(sts, h[..|h| - 1]), h[|h| - 1])
  }

  function OfType(h: seq<Pdu>, t: nat): seq<Pdu> {
    if h == [] then []
    else OfType(h[..|h| - 1], t) + if h[|h| - 1].hdr.pduType == t then [h[|h| - 1]] else []
  }

  /** The types do not disturb each other, however their PDUs are interleaved. */
  lemma {:induction false} TypesAreIndependent(sts: seq<RxState>, h: seq<Pdu>, t: nat)
    requires Typed(h, |sts|) && t < |sts|
    ensures RunAll(sts, h)[t] == Run(sts[t], OfType(h, t))
  {
    if h != [] {
      var h0, p := h[..|h| - 1], h[|h| - 1];
      TypesAreIndependent(sts, h0, t);
      if p.hdr.pduType == t {
        RunAppend(sts[t], OfType(h0, t), [p]);
        RunOne(Run(sts[t], OfType(h0, t)), p);
      } else {
        assert OfType(h, t) == OfType(h0, t);
      }
    }
  }

  /** The same characterisation for the receiver as a whole, over every PDU history. */
  lemma ReassemblyExact(sts: seq<RxState>, h: seq<Pdu>, t: nat)
    requires Typed(h, |sts|) && t < |sts| && sts[t].bytes == []
    ensures var g, st := OfType(h, t), RunAll(sts, h)[t];
            && (st.Complete() <==> exists k :: 0 <= k < |g| && MessageRun(g[k..]))
            && (forall k :: 0 <= k < |g| && MessageRun(g[k..]) ==> st.bytes == Concat(g[k..]))
  {
    TypesAreIndependent(sts, h, t);
    CompleteIffMessageRun(sts[t], OfType(h, t));
  }
}
