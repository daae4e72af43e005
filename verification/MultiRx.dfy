/** Splitting a received datagram into packets, src/protocol_socket.c lines 605-694.

    The parser may look past either end of the received bytes (a short header at the end, a length
    field below 2 at the start), so memory is a total function from offsets to bytes, of which
    offsets 0 to len - 1 were received and the others hold whatever they hold. */
module MultiRx {

  type UINT8 = x: int | 0 <= x < 0x100
  type Memory = int -> UINT8

  const MULTI_HEAD := 0xFB00
  const MULTI_TAIL := 0x00BF
  const SIZEOF_HDR := 6
  const SIZEOF_TIL := 2
  const SIZEOF_HELLODATA := 260  // MacTWRHellodata: 4 + 32 * 8
  const SIZEOF_LENDATA := 292    // MacNodeLendata: 4 + 32 + 2 * 32 * 4

  /** A UINT16 in little-endian order. */
  function Word(mem: Memory, i: int): (w: nat)
    ensures w < 0x1_0000
  {
    mem(i) as int + 0x100 * mem(i + 1) as int
  }

  /** Length of the packet that starts at offset i, or 0: the head, the length field that must stay
      within the received bytes, and the tail where the length says. */
  function Accepted(mem: Memory, len: int, i: int): (n: nat) {
    var n := Word(mem, i + 2);
    if Word(mem, i) == MULTI_HEAD && n + i <= len && Word(mem, i + n - SIZEOF_TIL) == MULTI_TAIL then n else 0
  }

  /** The bytes of a packet of length n at offset i: head 0xFB00, the length, and tail 0x00BF, each
      with the low byte first. */
  ghost predicate PacketBytes(mem: Memory, i: int, n: int) {
    && mem(i) == 0x00 && mem(i + 1) == 0xFB
    && mem(i + 2) as int + 0x100 * mem(i + 3) as int == n
    && mem(i + n - 2) == 0xBF && mem(i + n - 1) == 0x00
  }

  /** Exactly such bytes are accepted, for every length and every place. */
  lemma AcceptedIff(mem: Memory, len: int, i: int, n: nat)
    requires n > 0
    ensures Accepted(mem, len, i) == n <==> PacketBytes(mem, i, n) && i + n <= len
  {
  }

  method CheckHdrTil(mem: Memory, len: int, dataidx: int) returns (r: nat)
    ensures r == Accepted(mem, len, dataidx)
    ensures r > 0 ==> PacketBytes(mem, dataidx, r) && dataidx + r <= len
    ensures forall n :: n > 0 && PacketBytes(mem, dataidx, n) && dataidx + n <= len ==> r == n
  {
    if Word(mem, dataidx) == MULTI_HEAD {
      var pdulen := Word(mem, dataidx + 2);
      if pdulen + dataidx <= len {
        if Word(mem, dataidx + pdulen - SIZEOF_TIL) == MULTI_TAIL {
          return pdulen;
        }
      }
    }
    return 0;
  }

  /** What multi_pdu_rx does with a packet. */
  datatype Dispatch = BaseData | LenData | LengthError | TypeError

  function DispatchOf(mem: Memory, i: int): Dispatch {
    var sdu := Word(mem, i + 2) - (SIZEOF_HDR + SIZEOF_TIL);
    var msgType := Word(mem, i + 4);
    if msgType == 0 then (if sdu == SIZEOF_HELLODATA then BaseData else LengthError)
    else if msgType == 1 then (if sdu == SIZEOF_LENDATA then LenData else LengthError)
    else TypeError
  }

  /** A delivered packet: where it starts, how long it is, and what became of it. */
  datatype Packet = Packet(start: nat, size: nat, what: Dispatch)

  /** The packet that starts at each offset; it is none when its size is 0. */
  function PacketAt(mem: Memory, len: int): nat -> Packet {
    (i: nat) => Packet(i, Accepted(mem, len, i), DispatchOf(mem, i))
  }

  /** Where the packets before number k end. */
  function EndOf(ps: seq<Packet>, k: nat): nat
    requires k <= |ps|
  {
    if k == 0 then 0 else ps[k - 1].start + ps[k - 1].size
  }

  /** The packets tile the received bytes from 0 up to `end`: each is the one that starts where the
      packets before it end, and stays within len. */
  ghost predicate Tiles(at: nat -> Packet, len: int, ps: seq<Packet>, end: nat) {
    (forall k :: 0 <= k < |ps| ==> TileIn(at, len, ps, k)) && end == EndOf(ps, |ps|)
  }

  ghost predicate TileIn(at: nat -> Packet, len: int, ps: seq<Packet>, k: nat)
    requires k < |ps|
  {
    Tile(at, len, ps[k], EndOf(ps, k))
  }

  ghost predicate Tile(at: nat -> Packet, len: int, p: Packet, i: nat) {
    p == at(i) && p.start == i && p.size > 0 && i + p.size <= len
  }

  lemma TilesSnoc(at: nat -> Packet, len: int, ps: seq<Packet>, end: nat)
    requires Tiles(at, len, ps, end) && Tile(at, len, at(end), end)
    ensures Tiles(at, len, ps + [at(end)], end + at(end).size)
  {
    var qs := ps + [at(end)];
    forall k | 0 <= k < |qs|
      ensures TileIn(at, len, qs, k)
    {
      assert k < |ps| ==> TileIn(at, len, ps, k);
      EndKept(ps, at(end), k);
    }
  }

  lemma EndKept(ps: seq<Packet>, p: Packet, k: nat)
    requires k <= |ps|
    ensures EndOf(ps + [p], k) == EndOf(ps, k)
    ensures k < |ps| ==> (ps + [p])[k] == ps[k]
  {
  }

  /** On any bytes: the accepted packets tile a prefix without gap or overlap, and the loop stops at
      the end or at the first place where no packet starts. */
  method MultiDataRx(mem: Memory, len: int) returns (ps: seq<Packet>, dataidx: nat)
    ensures Tiles(PacketAt(mem, len), len, ps, dataidx)
    ensures dataidx >= len || Accepted(mem, len, dataidx) == 0
    ensures len >= 0 ==> dataidx <= len
    ensures dataidx < len ==> forall n :: 0 < n <= len - dataidx ==> !PacketBytes(mem, dataidx, n)
    ensures forall k :: 0 <= k < |ps| ==> PacketBytes(mem, ps[k].start, ps[k].size)
  {
    ps, dataidx := [], 0;
    while dataidx < len
      invariant Tiles(PacketAt(mem, len), len, ps, dataidx)
      invariant len >= 0 ==> dataidx <= len
      invariant forall k :: 0 <= k < |ps| ==> PacketBytes(mem, ps[k].start, ps[k].size)
      decreases len - dataidx
    {
      var pkglen := CheckHdrTil(mem, len, dataidx);
      if pkglen == 0 {
        break;
      }
      TilesSnoc(PacketAt(mem, len), len, ps, dataidx);
      ps := ps + [Packet(dataidx, pkglen, DispatchOf(mem, dataidx))];
      dataidx := dataidx + pkglen;
    }
  }

  /** Tiling and where it stops determine what is delivered. */
  lemma TilesUnique(at: nat -> Packet, len: int, ps: seq<Packet>, e: nat, qs: seq<Packet>, f: nat)
    requires Tiles(at, len, ps, e) && Tiles(at, len, qs, f)
    requires e >= len || at(e).size == 0
    requires f >= len || at(f).size == 0
    ensures ps == qs && e == f
  {
    NotLonger(at, len, ps, e, qs, f);
    NotLonger(at, len, qs, f, ps, e);
    SamePrefix(at, len, ps, e, qs, f, |ps|);
  }

  lemma NotLonger(at: nat -> Packet, len: int, ps: seq<Packet>, e: nat, qs: seq<Packet>, f: nat)
    requires Tiles(at, len, ps, e) && Tiles(at, len, qs, f)
    requires f >= len || at(f).size == 0
    ensures |ps| <= |qs|
  {
    if |qs| < |ps| {
      TileAt(at, len, ps, e, |qs|);
      assert TileIn(at, len, ps, |qs|);
      SamePrefix(at, len, ps, e, qs, f, |qs|);
    }
  }

  lemma TileAt(at: nat -> Packet, len: int, ps: seq<Packet>, end: nat, k: nat)
    requires Tiles(at, len, ps, end) && k < |ps|
    ensures ps[k] == at(EndOf(ps, k))
  {
    assert TileIn(at, len, ps, k);
  }

  lemma SamePrefix(at: nat -> Packet, len: int, ps: seq<Packet>, e: nat, qs: seq<Packet>, f: nat, n: nat)
    requires Tiles(at, len, ps, e) && Tiles(at, len, qs, f) && n <= |ps| && n <= |qs|
    ensures forall k :: 0 <= k < n ==> ps[k] == qs[k]
    ensures EndOf(ps, n) == EndOf(qs, n)
  {
    SameEnd(at, len, ps, e, qs, f, n);
    forall k | 0 <= k < n
      ensures ps[k] == qs[k]
    {
      SameEnd(at, len, ps, e, qs, f, k);
      TileAt(at, len, ps, e, k);
      TileAt(at, len, qs, f, k);
    }
  }

  lemma {:induction false} SameEnd(at: nat -> Packet, len: int,
                                   ps: seq<Packet>, e: nat, qs: seq<Packet>, f: nat, n: nat)
    requires Tiles(at, len, ps, e) && Tiles(at, len, qs, f) && n <= |ps| && n <= |qs|
    ensures EndOf(ps, n) == EndOf(qs, n)
  {
    if n > 0 {
      SameEnd(at, len, ps, e, qs, f, n - 1);
      TileAt(at, len, ps, e, n - 1);
      TileAt(at, len, qs, f, n - 1);
    }
  }

  // ----- well-formed input

  /** A packet as the protocol means it: head, its own length, body, tail. */
  ghost predicate WellFormed(f: seq<UINT8>) {
    && SIZEOF_HDR + SIZEOF_TIL <= |f| < 0x1_0000
    && f[0] == 0x00 && f[1] == 0xFB
    && f[2] == |f| % 0x100 && f[3] == |f| / 0x100
    && f[|f| - 2] == 0xBF && f[|f| - 1] == 0x00
  }

  function Concat(fs: seq<seq<UINT8>>): seq<UINT8> {
    if fs == [] then [] else Concat(fs[..|fs| - 1]) + fs[|fs| - 1]
  }

  ghost predicate Holds(mem: Memory, at: int, b: seq<UINT8>) {
    forall i :: 0 <= i < |b| ==> mem(at + i) == b[i]
  }

  lemma WellFormedAccepted(mem: Memory, len: int, at: int, f: seq<UINT8>)
    requires WellFormed(f) && Holds(mem, at, f) && at + |f| <= len
    ensures Accepted(mem, len, at) == |f|
  {
    assert mem(at + 0) == f[0] && mem(at + 1) == f[1] && mem(at + 2) == f[2] && mem(at + 3) == f[3];
    assert mem(at + (|f| - 2)) == f[|f| - 2] && mem(at + (|f| - 1)) == f[|f| - 1];
    assert Word(mem, at + 2) == |f|;
  }

  /** The bytes of a delivered packet. */
  function BytesOf(mem: Memory, p: Packet): (f: seq<UINT8>)
    ensures |f| == p.size && forall i :: 0 <= i < |f| ==> f[i] == mem(p.start + i)
  {
    seq(p.size, i requires 0 <= i < p.size => mem(p.start + i))
  }

  /** A wrong packet is never delivered: whatever MultiDataRx takes, unless it is too short for a
      head and a tail, is a packet as the protocol means it. */
  lemma DeliveredWellFormed(mem: Memory, len: int, ps: seq<Packet>, dataidx: nat, k: nat)
    requires Tiles(PacketAt(mem, len), len, ps, dataidx) && k < |ps|
    ensures WellFormed(BytesOf(mem, ps[k])) <==> ps[k].size >= 8
  {
    var at := PacketAt(mem, len);
    assert TileIn(at, len, ps, k);
    assert ps[k] == at(ps[k].start);
    AcceptedIff(mem, len, ps[k].start, ps[k].size);
  }

  /** What becomes of a packet, from its bytes: base data of 260 bytes under type 0, length data of
      292 bytes under type 1, an error for any other length or type. */
  lemma DispatchOfFrame(mem: Memory, at: int, f: seq<UINT8>)
    requires WellFormed(f) && Holds(mem, at, f)
    ensures DispatchOf(mem, at) ==
            if f[4] == 0 && f[5] == 0 then (if |f| == 268 then BaseData else LengthError)
            else if f[4] == 1 && f[5] == 0 then (if |f| == 300 then LenData else LengthError)
            else TypeError
  {
    assert mem(at + 2) == f[2] && mem(at + 3) == f[3] && mem(at + 4) == f[4] && mem(at + 5) == f[5];
    assert Word(mem, at + 2) == |f| && Word(mem, at + 4) == f[4] as int + 0x100 * f[5] as int;
  }

  /** The packets that the frames fs stand for. */
  function PacketsOf(mem: Memory, fs: seq<seq<UINT8>>): (ps: seq<Packet>)
    ensures |ps| == |fs|
  {
    if fs == [] then []
    else
      var at := |Concat(fs[..|fs| - 1])|;
      PacketsOf(mem, fs[..|fs| - 1]) + [Packet(at, |fs[|fs| - 1]|, DispatchOf(mem, at))]
  }

  lemma HoldsParts(mem: Memory, a: seq<UINT8>, b: seq<UINT8>)
    requires Holds(mem, 0, a + b)
    ensures Holds(mem, 0, a) && Holds(mem, |a|, b)
  {
    forall i | 0 <= i < |a|
      ensures mem(0 + i) == a[i]
    {
      assert (a + b)[i] == a[i];
    }
    forall i | 0 <= i < |b|
      ensures mem(|a| + i) == b[i]
    {
      assert (a + b)[|a| + i] == b[i] && mem(0 + (|a| + i)) == (a + b)[|a| + i];
    }
  }

  lemma {:induction false} FramesTile(mem: Memory, len: int, fs: seq<seq<UINT8>>)
    requires (forall f :: f in fs ==> WellFormed(f)) && Holds(mem, 0, Concat(fs)) && |Concat(fs)| <= len
    ensures Tiles(PacketAt(mem, len), len, PacketsOf(mem, fs), |Concat(fs)|)
    decreases |fs|
  {
    if fs != [] {
      var gs, f := fs[..|fs| - 1], fs[|fs| - 1];
      HoldsParts(mem, Concat(gs), f);
      FramesTile(mem, len, gs);
      var at, i := PacketAt(mem, len), |Concat(gs)|;
      WellFormedAccepted(mem, len, i, f);
      assert at(i) == Packet(i, |f|, DispatchOf(mem, i));
      TilesSnoc(at, len, PacketsOf(mem, gs), i);
      assert PacketsOf(mem, fs) == PacketsOf(mem, gs) + [at(i)] && |Concat(fs)| == i + |f|;
    }
  }

  /** A buffer made of well-formed packets is delivered packet by packet, all of it: whatever
      MultiDataRx returns on it is exactly that. */
  lemma FramesDelivered(mem: Memory, fs: seq<seq<UINT8>>, ps: seq<Packet>, dataidx: nat)
    requires (forall f :: f in fs ==> WellFormed(f)) && Holds(mem, 0, Concat(fs))
    requires Tiles(PacketAt(mem, |Concat(fs)|), |Concat(fs)|, ps, dataidx)
    requires dataidx >= |Concat(fs)| || Accepted(mem, |Concat(fs)|, dataidx) == 0
    ensures ps == PacketsOf(mem, fs) && dataidx == |Concat(fs)|
  {
    var n := |Concat(fs)|;
    FramesTile(mem, n, fs);
    TilesUnique(PacketAt(mem, n), n, ps, dataidx, PacketsOf(mem, fs), n);
  }
}
