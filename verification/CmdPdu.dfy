/** Command PDUs: the header fields of include/cmd_handle.h and their wire form. */
module CmdPdu {

  type UINT8 = x: int | 0 <= x < 0x100
  type UINT16 = x: int | 0 <= x < 0x1_0000
  type UINT32 = x: int | 0 <= x < 0x1_0000_0000
  type UINT6 = x: int | 0 <= x < 64

  const HELLO_LEN: nat := 0x1000
  const MAX_CMD_TYPE: nat := 3
  const CMD_HDR_LEN: nat := 4
  const MAC_HDR_LEN: nat := 8

  datatype CmdHdr = CmdHdr(pduType: UINT8, firstpkg: bool, fragment: bool, index: UINT6, sublen: UINT16)

  datatype Pdu = Pdu(hdr: CmdHdr, payload: seq<UINT8>) {
    /** The length field counts the header and the payload. */
    predicate Sized() {
      hdr.sublen == CMD_HDR_LEN + |payload|
    }
  }

  /** The four header bytes: type, then the three bit fields from the low bit upwards, then sublen
      with the low byte first. */
  function EncodeHdr(h: CmdHdr): (b: seq<UINT8>)
    ensures |b| == CMD_HDR_LEN
    ensures b[0] == h.pduType && b[2] as int + 0x100 * b[3] as int == h.sublen
    ensures (b[1] % 2 == 1 <==> h.firstpkg) && (b[1] / 2 % 2 == 1 <==> h.fragment) && b[1] / 4 == h.index
  {
    [ h.pduType,
      (if h.firstpkg then 1 else 0) + (if h.fragment then 2 else 0) + 4 * h.index,
      h.sublen % 0x100,
      h.sublen / 0x100 ]
  }

  function DecodeHdr(b: seq<UINT8>): CmdHdr
    requires |b| >= CMD_HDR_LEN
  {
    CmdHdr(b[0], b[1] % 2 == 1, b[1] / 2 % 2 == 1, b[1] / 4, b[2] as int + 0x100 * b[3] as int)
  }

  function Serialize(ps: seq<Pdu>): seq<UINT8> {
    if ps == [] then [] else EncodeHdr(ps[0].hdr) + ps[0].payload + Serialize(ps[1..])
  }

  /** Splitting a frame body by the length fields; None if they do not tile it. */
  datatype Split = None | Some(ps: seq<Pdu>)

  function Parse(b: seq<UINT8>): (r: Split)
    decreases |b|
  {
    if b == [] then Some([])
    else if |b| < CMD_HDR_LEN then None
    else
      var h := DecodeHdr(b);
      if h.sublen < CMD_HDR_LEN || h.sublen > |b| then None
      else
        match Parse(b[h.sublen..])
        case None => None
        case Some(ps) => Some([Pdu(h, b[CMD_HDR_LEN..h.sublen])] + ps)
  }

  lemma HdrRoundTrip(h: CmdHdr, rest: seq<UINT8>)
    ensures DecodeHdr(EncodeHdr(h) + rest) == h
  {
    var e := EncodeHdr(h);
    assert (e + rest)[..CMD_HDR_LEN] == e;
    assert e[1] % 2 == (if h.firstpkg then 1 else 0) && e[1] / 4 == h.index;
  }

  lemma {:induction false} SerializeAppend(ps: seq<Pdu>, p: Pdu)
    ensures Serialize(ps + [p]) == Serialize(ps) + EncodeHdr(p.hdr) + p.payload
  {
    if ps != [] {
      SerializeAppend(ps[1..], p);
      assert (ps + [p])[1..] == ps[1..] + [p];
    }
  }

  /** Splitting off one PDU of the right length. */
  lemma ParseStep(p: Pdu, rest: seq<UINT8>)
    requires p.Sized()
    ensures Parse(EncodeHdr(p.hdr) + p.payload + rest)
         == match Parse(rest) case None => None case Some(ps) => Some([p] + ps)
  {
    var e := EncodeHdr(p.hdr);
    var b := e + p.payload + rest;
    HdrRoundTrip(p.hdr, p.payload + rest);
    assert b == e + (p.payload + rest);
    assert b[p.hdr.sublen..] == rest && b[CMD_HDR_LEN..p.hdr.sublen] == p.payload;
  }

  /** Frames whose PDUs carry their own length can be split again, byte by byte. */
  lemma {:induction false} ParseSerialize(ps: seq<Pdu>)
    requires forall p :: p in ps ==> p.Sized()
    ensures Parse(Serialize(ps)) == Some(ps)
  {
    if ps != [] {
      ParseSerialize(ps[1..]);
      ParseStep(ps[0], Serialize(ps[1..]));
      assert ps == [ps[0]] + ps[1..];
    }
  }

  lemma HdrDecoded(b: seq<UINT8>)
    requires |b| >= CMD_HDR_LEN
    ensures EncodeHdr(DecodeHdr(b)) == b[..CMD_HDR_LEN]
  {
  }

  /** Whatever can be split consists of PDUs of the right length, and nothing is lost by it. */
  lemma {:induction false} SerializeParse(b: seq<UINT8>)
    ensures Parse(b).Some? ==> Serialize(Parse(b).ps) == b && forall p :: p in Parse(b).ps ==> p.Sized()
    decreases |b|
  {
    if Parse(b).Some? && b != [] {
      var h := DecodeHdr(b);
      var p, ps := Pdu(h, b[CMD_HDR_LEN..h.sublen]), Parse(b[h.sublen..]).ps;
      SerializeParse(b[h.sublen..]);
      HdrDecoded(b);
      assert ([p] + ps)[1..] == ps;
    }
  }

  /** The receiver reads back a frame exactly when every length field in it is right. */
  lemma ReadableIff(ps: seq<Pdu>)
    ensures Parse(Serialize(ps)) == Some(ps) <==> forall p :: p in ps ==> p.Sized()
  {
    SerializeParse(Serialize(ps));
    if forall p :: p in ps ==> p.Sized() {
      ParseSerialize(ps);
    }
  }

  // ----- taking fragments off one by one

  /** A header that the receiver can act on: the length counts the header itself and stays within
      the bytes that are left, and there is a buffer for the type.  Otherwise the code would copy a
      negative number of bytes, or from beyond the frame, or to beyond the buffers. */
  predicate Usable(h: CmdHdr, left: nat) {
    CMD_HDR_LEN <= h.sublen <= left && h.pduType < MAX_CMD_TYPE
  }

  /** The fragments that can be taken off the front, up to the first unusable header. */
  function Leading(b: seq<UINT8>): (ps: seq<Pdu>)
    ensures forall i :: 0 <= i < |ps| ==> ps[i].Sized() && ps[i].hdr.pduType < MAX_CMD_TYPE
    decreases |b|
  {
    if |b| < CMD_HDR_LEN || !Usable(DecodeHdr(b), |b|) then []
    else
      var h := DecodeHdr(b);
      [Pdu(h, b[CMD_HDR_LEN..h.sublen])] + Leading(b[h.sublen..])
  }

  /** A fragment at the front with its own header: taken off whole if its length is right; nothing
      is taken off if its length is unusable; otherwise something else is. */
  lemma LeadingStep(p: Pdu, rest: seq<UINT8>)
    requires p.hdr.pduType < MAX_CMD_TYPE
    ensures var b := EncodeHdr(p.hdr) + p.payload + rest;
            && (p.Sized() ==> Leading(b) == [p] + Leading(rest))
            && (!Usable(p.hdr, |b|) ==> Leading(b) == [])
            && (!p.Sized() && Usable(p.hdr, |b|) ==> Leading(b) != [] && Leading(b)[0] != p)
  {
    var e := EncodeHdr(p.hdr);
    var b := e + p.payload + rest;
    HdrRoundTrip(p.hdr, p.payload + rest);
    assert b == e + (p.payload + rest);
    if p.Sized() {
      assert b[p.hdr.sublen..] == rest && b[CMD_HDR_LEN..p.hdr.sublen] == p.payload;
    }
  }

  /** The first fragment of f with a wrong length, if any, has an unusable one: the receiver stops
      there. */
  predicate StopsAtWrong(f: seq<Pdu>) {
    f == [] || if f[0].Sized() then StopsAtWrong(f[1..]) else !Usable(f[0].hdr, |Serialize(f)|)
  }

  /** The receiver takes nothing but fragments of the frame, in order, exactly when it stops at the
      first wrong length. */
  lemma {:induction false} LeadingIsPrefixIff(f: seq<Pdu>)
    requires forall p :: p in f ==> p.hdr.pduType < MAX_CMD_TYPE
    ensures Leading(Serialize(f)) <= f <==> StopsAtWrong(f)
  {
    if f != [] {
      LeadingIsPrefixIff(f[1..]);
      LeadingStep(f[0], Serialize(f[1..]));
      var ps := Leading(Serialize(f[1..]));
      assert f == [f[0]] + f[1..];
      assert [f[0]] + ps <= f <==> ps <= f[1..] by {
        assert ([f[0]] + ps)[1..] == ps;
      }
    }
  }

  lemma TailParts<T>(s: seq<T>, k: nat)
    requires 0 < k <= |s|
    ensures s[1..][k - 1..] == s[k..] && s[..k] == [s[0]] + s[1..][..k - 1]
  {
  }

  /** Up to the first fragment with a wrong and unusable length, all are taken. */
  lemma {:induction false} LeadingUpTo(f: seq<Pdu>, k: nat)
    requires k <= |f| && forall p :: p in f ==> p.hdr.pduType < MAX_CMD_TYPE
    requires forall j :: 0 <= j < k ==> f[j].Sized()
    requires k < |f| ==> !Usable(f[k].hdr, |Serialize(f[k..])|)
    ensures Leading(Serialize(f)) == f[..k]
  {
    if k > 0 {
      TailParts(f, k);
      LeadingUpTo(f[1..], k - 1);
      LeadingStep(f[0], Serialize(f[1..]));
    } else if f != [] {
      assert f[0..] == f;
      LeadingStep(f[0], Serialize(f[1..]));
    }
  }
}
