/** The buffers of src/cmd_handle.c as mutable objects, and the functions that update them. */
module CmdHandle {
  import opened CmdPdu
  import opened CmdReassembly
  import opened CmdTransmit
  import opened CmdSession

  /** memcpy(dst + at, src, |src|) */
  method Memcpy(dst: array<UINT8>, at: nat, src: seq<UINT8>)
    requires at + |src| <= dst.Length
    modifies dst
    ensures dst[..at] == old(dst[..at])
    ensures dst[at..at + |src|] == src
    ensures dst[at + |src|..] == old(dst[at + |src|..])
  {
    forall i | 0 <= i < |src| {
      dst[at + i] := src[i];
    }
  }

  /** The contents of a static buffer. */
  const ZEROS: seq<UINT8> := seq(HELLO_LEN, _ => 0)

  const MAC_CMD_TYPE: nat := 0x41041  // the literal 01010101 is octal

  /** The three fields of a MAC header, low bytes first: type, length and checksum. */
  ghost predicate MacFields(b: seq<UINT8>, wlen: nat) {
    && |b| >= 8
    && b[0] as int + 0x100 * b[1] as int + 0x1_0000 * b[2] as int + 0x100_0000 * b[3] as int == 0x41041
    && b[4] as int + 0x100 * b[5] as int == wlen % 0x1_0000
    && b[6] as int + 0x100 * b[7] as int == 1
  }

  function MacHdr(wlen: nat): (b: seq<UINT8>)
    ensures MacFields(b, wlen)
    ensures |b| == MAC_HDR_LEN
  {
    [ MAC_CMD_TYPE % 0x100, MAC_CMD_TYPE / 0x100 % 0x100, MAC_CMD_TYPE / 0x1_0000 % 0x100, 0,
      wlen % 0x100, wlen / 0x100 % 0x100, 1, 0 ]
  }

  lemma SameTail<T>(a: seq<T>, b: seq<T>, c: seq<T>, from: nat, to: nat)
    requires from <= to <= |a| == |b| == |c| && a[to..] == b[to..] && b[from..] == c[from..]
    ensures a[to..] == c[to..]
  {
    assert b[to..] == b[from..][to - from..] && c[to..] == c[from..][to - from..];
  }

  lemma {:induction false} WlenGrows(budget: UINT32, bufs: seq<TxBuf>, i: nat, n: nat)
    requires AllValid(bufs) && i <= n <= |bufs|
    ensures TxUpTo(AsWritten, budget, bufs, i).wlen <= TxUpTo(AsWritten, budget, bufs, n).wlen
  {
    if i < n {
      WlenGrows(budget, bufs, i, n - 1);
    }
  }

  lemma NothingSentIff(budget: UINT32, bufs: seq<TxBuf>)
    requires AllValid(bufs)
    ensures Tx(AsWritten, budget, bufs).frame == [] <==> Tx(AsWritten, budget, bufs).wlen == MAC_HDR_LEN
  {
    TxAccounts(AsWritten, budget, bufs);
    FrameEmpty(AsWritten, bufs, Tx(AsWritten, budget, bufs).bufs, |bufs|);
  }

  /** Lines 227-229 of tx_cmd: the MAC header goes in front of the fragments. */
  method WriteMacHdr(mactx: array<UINT8>, wlen: nat, ghost start: seq<UINT8>, ghost body: seq<UINT8>)
    requires |start| == MAC_HDR_LEN <= wlen <= mactx.Length && mactx[..wlen] == start + body
    modifies mactx
    ensures mactx[..wlen] == MacHdr(wlen) + body
    ensures mactx[MAC_HDR_LEN..wlen] == body && MacFields(mactx[..wlen], wlen)
    ensures mactx[wlen..] == old(mactx[..])[wlen..]
  {
    assert body == mactx[..wlen][MAC_HDR_LEN..];
    Memcpy(mactx, 0, MacHdr(wlen));
    assert mactx[..wlen] == mactx[0..MAC_HDR_LEN] + mactx[MAC_HDR_LEN..][..wlen - MAC_HDR_LEN];
  }

  class CmdBuf {
    var len: nat
    var hdr: CmdHdr
    const data: array<UINT8>

    constructor (t: UINT8, first: bool)
      ensures fresh(data) && data.Length == HELLO_LEN
      ensures len == 0 && hdr == CmdHdr(t, first, false, 0, 0)
      ensures data[..] == ZEROS
    {
      data := new UINT8[HELLO_LEN](_ => 0);
      len := 0;
      hdr := CmdHdr(t, first, false, 0, 0);
    }

    ghost predicate Valid()
      reads this
    {
      data.Length == HELLO_LEN && len <= HELLO_LEN
    }

    /** The buffer as a receiver sees it. */
    ghost function RxView(): RxState
      reads this, data
      requires Valid()
    {
      RxState(hdr, data[..len])
    }

    /** The buffer as a sender sees it. */
    ghost function TxView(): (b: TxBuf)
      reads this, data
      requires Valid()
      ensures b.Valid()
    {
      TxBuf(len, hdr, data[..])
    }

    /** rx_cmd_frag_combine on the buffer of the PDU's type.  The caller must see to it that the
        bytes fit: the code has no check of its own. */
    method FragCombine(pdu: CmdHdr, payload: seq<UINT8>)
      requires Valid() && pdu.sublen >= CMD_HDR_LEN && |payload| == pdu.sublen - CMD_HDR_LEN
      requires |RxView().Combine(Pdu(pdu, payload)).bytes| <= HELLO_LEN
      modifies this, data
      ensures Valid() && RxView() == old(RxView().Combine(Pdu(pdu, payload)))
    {
      var coverflg := false;
      if len == 0 {
        coverflg := true;
      } else {
        if hdr.firstpkg && hdr.fragment && hdr.index == pdu.index && !pdu.firstpkg {
          var datalen := pdu.sublen - CMD_HDR_LEN;
          Memcpy(data, len, payload);
          assert data[..len + datalen] == data[..len] + data[len..len + datalen];
          len := len + datalen;
          hdr := hdr.(fragment := pdu.fragment);
        } else {
          coverflg := true;
        }
      }

      if coverflg {
        var datalen := pdu.sublen - CMD_HDR_LEN;
        Memcpy(data, 0, payload);
        assert data[..datalen] == data[0..0 + datalen];
        len := datalen;
        hdr := pdu;
      }
    }

    /** rx_check_cmddata_complete */
    method CheckComplete() returns (r: bool)
      requires Valid()
      ensures r <==> RxView().Complete()
    {
      r := len != 0 && hdr.firstpkg && !hdr.fragment;
    }

    /** Lines 185-210 of tx_cmd for one pending buffer with room for a byte: the fragment is
        appended to the frame, header first, and then accounted for. */
    method WriteFragment(room: nat, mactx: array<UINT8>, wlen: nat) returns (sublen: nat)
      requires Valid() && len > 0 && room > CMD_HDR_LEN
      requires mactx != data && wlen + FragmentSize(len, room) <= mactx.Length
      modifies this, mactx
      ensures sublen == FragmentSize(old(len), room)
      ensures Valid() && TxView() == old(Fragment(AsWritten, TxView(), sublen - CMD_HDR_LEN).1)
      ensures var p := old(Fragment(AsWritten, TxView(), sublen - CMD_HDR_LEN).0);
              mactx[..wlen + sublen] == old(mactx[..wlen]) + EncodeHdr(p.hdr) + p.payload
      ensures mactx[wlen + sublen..] == old(mactx[..])[wlen + sublen..]
    {
      if len + CMD_HDR_LEN <= room {
        sublen := len + CMD_HDR_LEN;
      } else {
        sublen := room;
      }
      var n := sublen - CMD_HDR_LEN;
      Memcpy(mactx, wlen, EncodeHdr(hdr) + data[..n]);
      assert mactx[..wlen + sublen] == mactx[..wlen] + mactx[wlen..wlen + sublen];
      hdr := hdr.(firstpkg := false);
      len := len - n;
      hdr := hdr.(fragment := len != 0);
      hdr := hdr.(sublen := sublen);
    }

    /** tx_cmd_indata, with tx_add_cmd generalised from a fixed length of 100 to any message. */
    method IndataMessage(msg: Message)
      requires Valid()
      modifies this, data
      ensures Valid() && TxView() == old(Indata(TxView(), msg))
      ensures old(len) > 0 ==> len == old(len) && hdr == old(hdr) && data[..] == old(data[..])
      ensures old(len) == 0 ==>
        && len == |msg| && data[..|msg|] == msg && data[|msg|..] == old(data[|msg|..])
        && hdr.pduType == old(hdr.pduType) && hdr.index == (old(hdr.index) + 1) % 64
        && hdr.firstpkg && !hdr.fragment && hdr.sublen == 0
    {
      if len == 0 {
        hdr := hdr.(firstpkg := true, fragment := false, index := (hdr.index + 1) % 64, sublen := 0);
        Memcpy(data, 0, msg);
        assert data[..] == data[0..|msg|] + data[|msg|..];
        assert data[0..|msg|] == data[..|msg|];
        len := |msg|;
      }
    }
  }

  /** all_cmd_buf_t: one buffer for each type. */
  class AllCmdBuf {
    const cmdBuf: seq<CmdBuf>

    constructor (first: bool)
      ensures Valid() && fresh(Repr())
      ensures forall t :: 0 <= t < MAX_CMD_TYPE ==>
        cmdBuf[t].len == 0 && cmdBuf[t].hdr == CmdHdr(t, first, false, 0, 0) && cmdBuf[t].data[..] == ZEROS
      ensures first ==> TxViews() == Init([ZEROS, ZEROS, ZEROS]).bufs
      ensures !first ==> RxViews() == Init([ZEROS, ZEROS, ZEROS]).rx
    {
      var b0 := new CmdBuf(0, first);
      var b1 := new CmdBuf(1, first);
      var b2 := new CmdBuf(2, first);
      cmdBuf := [b0, b1, b2];
      new;
      InitViews(first);
    }

    lemma InitViews(first: bool)
      requires Valid()
      requires forall i :: 0 <= i < MAX_CMD_TYPE ==>
        cmdBuf[i].len == 0 && cmdBuf[i].hdr == CmdHdr(i, first, false, 0, 0) && cmdBuf[i].data[..] == ZEROS
      ensures first ==> TxViews() == Init([ZEROS, ZEROS, ZEROS]).bufs
      ensures !first ==> RxViews() == Init([ZEROS, ZEROS, ZEROS]).rx
    {
      assert [ZEROS, ZEROS, ZEROS][0] == [ZEROS, ZEROS, ZEROS][1] == [ZEROS, ZEROS, ZEROS][2] == ZEROS;
    }

    ghost function Repr(): set<object> {
      (set b | b in cmdBuf :: b as object) + (set b | b in cmdBuf :: b.data as object)
    }

    ghost predicate Valid()
      reads cmdBuf
    {
      && |cmdBuf| == MAX_CMD_TYPE
      && (forall i :: 0 <= i < MAX_CMD_TYPE ==> cmdBuf[i].Valid())
      && (forall i, j :: 0 <= i < j < MAX_CMD_TYPE ==> cmdBuf[i] != cmdBuf[j] && cmdBuf[i].data != cmdBuf[j].data)
    }

    ghost function RxViews(): seq<RxState>
      reads cmdBuf, set b | b in cmdBuf :: b.data
      requires Valid()
    {
      seq(MAX_CMD_TYPE,
          i requires 0 <= i < MAX_CMD_TYPE reads cmdBuf, set b | b in cmdBuf :: b.data requires Valid() =>
            cmdBuf[i].RxView())
    }

    ghost function TxViews(): (r: seq<TxBuf>)
      reads cmdBuf, set b | b in cmdBuf :: b.data
      requires Valid()
      ensures AllValid(r) && |r| == MAX_CMD_TYPE
    {
      seq(MAX_CMD_TYPE,
          i requires 0 <= i < MAX_CMD_TYPE reads cmdBuf, set b | b in cmdBuf :: b.data requires Valid() =>
            cmdBuf[i].TxView())
    }

    /** rx_cmd_frag_combine */
    method FragCombine(pdu: CmdHdr, payload: seq<UINT8>)
      requires Valid() && pdu.pduType < MAX_CMD_TYPE
      requires pdu.sublen >= CMD_HDR_LEN && |payload| == pdu.sublen - CMD_HDR_LEN
      requires |RxViews()[pdu.pduType].Combine(Pdu(pdu, payload)).bytes| <= HELLO_LEN
      modifies cmdBuf[pdu.pduType], cmdBuf[pdu.pduType].data
      ensures Valid() && RxViews() == old(CombineAll(RxViews(), Pdu(pdu, payload)))
    {
      cmdBuf[pdu.pduType].FragCombine(pdu, payload);
    }

    /** One type of the loop below; the other types keep their buffers. */
    method WriteType(i: nat, room: nat, mactx: array<UINT8>, wlen: nat) returns (sublen: nat)
      requires Valid() && mactx !in Repr() && i < MAX_CMD_TYPE
      requires cmdBuf[i].len > 0 && room > CMD_HDR_LEN && wlen + FragmentSize(cmdBuf[i].len, room) <= mactx.Length
      modifies cmdBuf[i], mactx
      ensures Valid() && sublen == FragmentSize(old(cmdBuf[i].len), room)
      ensures var (p, b') := old(Fragment(AsWritten, TxViews()[i], sublen - CMD_HDR_LEN));
              && TxViews() == old(TxViews())[i := b']
              && mactx[..wlen + sublen] == old(mactx[..wlen]) + EncodeHdr(p.hdr) + p.payload
              && mactx[wlen + sublen..] == old(mactx[..])[wlen + sublen..]
    {
      sublen := cmdBuf[i].WriteFragment(room, mactx, wlen);
    }

    /** The body of the loop of tx_cmd for type i. */
    method FillType(i: nat, budget: UINT32, mactx: array<UINT8>, wlen: nat, ghost st: TxState, ghost start: seq<UINT8>)
      returns (wlen': nat, stop: bool)
      requires Valid() && mactx !in Repr() && i < MAX_CMD_TYPE
      requires st.bufs == TxViews() && wlen == st.wlen && !st.stopped
      requires wlen <= mactx.Length && mactx[..wlen] == start + Serialize(st.frame)
      requires TxType(AsWritten, budget, st, i).wlen <= mactx.Length
      modifies cmdBuf[i], mactx
      ensures Valid()
      ensures var next := TxType(AsWritten, budget, st, i);
              && TxViews() == next.bufs && wlen' == next.wlen && stop == next.stopped
              && mactx[..wlen'] == start + Serialize(next.frame)
      ensures wlen <= wlen' && (wlen' == wlen ==> mactx[..] == old(mactx[..]))
      ensures mactx[wlen'..] == old(mactx[..])[wlen'..]
    {
      wlen', stop := wlen, false;
      var room := Room(budget, wlen);
      assert st.bufs[i].len == cmdBuf[i].len;
      if cmdBuf[i].len != 0 {
        if room > CMD_HDR_LEN {
          TypeSent(budget, st, i, TxType(AsWritten, budget, st, i), start);
          var sublen := WriteType(i, room, mactx, wlen);
          wlen' := wlen + sublen;
        } else {
          stop := true;
        }
      }
    }

    /** The loop of tx_cmd: the fragments are laid down behind the place of the MAC header. */
    method FillFrame(budget: UINT32, mactx: array<UINT8>) returns (wlen: nat)
      requires Valid() && mactx !in Repr() && MAC_HDR_LEN <= mactx.Length
      requires Tx(AsWritten, budget, TxViews()).wlen <= mactx.Length
      modifies cmdBuf, mactx
      ensures Valid() && TxViews() == old(Tx(AsWritten, budget, TxViews()).bufs)
      ensures MAC_HDR_LEN <= wlen == old(Tx(AsWritten, budget, TxViews()).wlen) <= mactx.Length
      ensures mactx[..wlen] == old(mactx[..MAC_HDR_LEN] + Serialize(Tx(AsWritten, budget, TxViews()).frame))
      ensures wlen == MAC_HDR_LEN ==> mactx[..] == old(mactx[..])
      ensures mactx[wlen..] == old(mactx[..])[wlen..]
    {
      ghost var v, start := TxViews(), mactx[..MAC_HDR_LEN];
      ghost var st := TxUpTo(AsWritten, budget, v, 0);
      var i, stop := 0, false;
      wlen := MAC_HDR_LEN;
      assert start + [] == start;
      while i < MAX_CMD_TYPE
        invariant i <= MAX_CMD_TYPE && Valid()
        invariant st == TxUpTo(AsWritten, budget, v, i) && TxViews() == st.bufs && !st.stopped
        invariant MAC_HDR_LEN <= wlen == st.wlen <= mactx.Length
        invariant mactx[..wlen] == start + Serialize(st.frame)
        invariant wlen == MAC_HDR_LEN ==> mactx[..] == old(mactx[..])
        invariant mactx[wlen..] == old(mactx[..])[wlen..]
      {
        WlenGrows(budget, v, i + 1, MAX_CMD_TYPE);
        ghost var mid, from := mactx[..], wlen;
        wlen, stop := FillType(i, budget, mactx, wlen, st, start);
        SameTail(mactx[..], mid, old(mactx[..]), from, wlen);
        st := TxUpTo(AsWritten, budget, v, i + 1);
        if stop {
          TxStopped(AsWritten, budget, v, i + 1, MAX_CMD_TYPE);
          break;
        }
        i := i + 1;
      }
      assert st == Tx(AsWritten, budget, v);
    }

    /** tx_cmd: fills mactx with one frame and returns the room left. */
    method TxCmd(budget: UINT32, mactx: array<UINT8>) returns (ret: int)
      requires Valid() && mactx !in Repr() && MAC_HDR_LEN <= mactx.Length
      requires Tx(AsWritten, budget, TxViews()).wlen <= mactx.Length
      modifies cmdBuf, mactx
      ensures Valid() && TxViews() == old(Tx(AsWritten, budget, TxViews()).bufs)
      ensures var r := old(Tx(AsWritten, budget, TxViews()));
              if r.frame == [] then mactx[..] == old(mactx[..]) && IntOf(ret, budget)
              else && MAC_HDR_LEN <= r.wlen <= mactx.Length && MacFields(mactx[..r.wlen], r.wlen)
                   && mactx[MAC_HDR_LEN..r.wlen] == Serialize(r.frame)
                   && mactx[r.wlen..] == old(mactx[..])[r.wlen..]
                   && IntOf(ret, budget - r.wlen)
    {
      NothingSentIff(budget, TxViews());
      var wlen := FillFrame(budget, mactx);
      if wlen == MAC_HDR_LEN {
        return ToInt32(budget);
      }
      WriteMacHdr(mactx, wlen, old(mactx[..MAC_HDR_LEN]), old(Serialize(Tx(AsWritten, budget, TxViews()).frame)));
      return ToInt32(budget - wlen);
    }
  }

  function FragmentSize(len: nat, room: nat): nat {
    if len + CMD_HDR_LEN <= room then len + CMD_HDR_LEN else room
  }

  /** The state after a type that gets a fragment, and the bytes of the frame then. */
  lemma TypeSent(budget: UINT32, st: TxState, i: nat, next: TxState, start: seq<UINT8>)
    requires AllValid(st.bufs) && i < |st.bufs| && !st.stopped && st.bufs[i].len > 0
    requires Room(budget, st.wlen) > CMD_HDR_LEN && next == TxType(AsWritten, budget, st, i)
    ensures var size := FragmentSize(st.bufs[i].len, Room(budget, st.wlen));
            var (p, b') := Fragment(AsWritten, st.bufs[i], size - CMD_HDR_LEN);
            && next.bufs == st.bufs[i := b'] && next.wlen == st.wlen + size && !next.stopped
            && start + Serialize(next.frame) == start + Serialize(st.frame) + EncodeHdr(p.hdr) + p.payload
  {
    var size := FragmentSize(st.bufs[i].len, Room(budget, st.wlen));
    var p := Fragment(AsWritten, st.bufs[i], size - CMD_HDR_LEN).0;
    SerializeAppend(st.frame, p);
    assert start + (Serialize(st.frame) + EncodeHdr(p.hdr) + p.payload)
        == start + Serialize(st.frame) + EncodeHdr(p.hdr) + p.payload;
  }

  /** The 32-bit int that stands for x. */
  predicate IntOf(ret: int, x: int) {
    -0x8000_0000 <= ret < 0x8000_0000 && (ret - x) % 0x1_0000_0000 == 0
  }

  /** The conversion of an unsigned 32-bit difference to int. */
  function ToInt32(x: int): (ret: int)
    ensures IntOf(ret, x)
  {
    var u := x % 0x1_0000_0000;
    if u < 0x8000_0000 then u else u - 0x1_0000_0000
  }
}
