/** Cutting a frame into datagrams (sender.cpp: send_bitstream) and putting it together again. */
module Datagrams {
  import opened Bytes

  const PACKET_HEADER_SIZE := 24
  const PACKET_SIZE := 4096
  const MAX_SIZE := 0x7FFF_FFFF

  /** A frame's size is a C `int`. */
  type Frame = f: Text | |f| <= MAX_SIZE

  // ---------------------------------------------------------------- the wire format

  /** Four bytes, lowest first, as `memcpy` of an `int` leaves them on the target. */
  function Le32(n: nat): (t: Text)
    requires n <= MAX_SIZE
    ensures |t| == 4
  {
    [n % 0x100, n / 0x100 % 0x100, n / 0x1_0000 % 0x100, n / 0x100_0000 % 0x100]
  }

  function FromLe32(t: Text): nat
    requires |t| == 4
  {
    t[0] as int + t[1] as int * 0x100 + t[2] as int * 0x1_0000 + t[3] as int * 0x100_0000
  }

  lemma Le32RoundTrip(n: nat)
    requires n <= MAX_SIZE
    ensures FromLe32(Le32(n)) == n
  {
    assert n / 0x1_0000 == n / 0x100 / 0x100 && n / 0x100_0000 == n / 0x100 / 0x100 / 0x100;
  }

  /** How many datagrams a size takes. */
  function PacketCount(size: nat): (n: nat)
    ensures PACKET_SIZE * n >= size && (n > 0 ==> PACKET_SIZE * (n - 1) < size)
  {
    (size + PACKET_SIZE - 1) / PACKET_SIZE
  }

  /** The bytes of the `k`-th piece, counted from 0. */
  function Piece(f: Frame, k: nat): (p: Text)
    requires k < PacketCount(|f|)
    ensures 0 < |p| <= PACKET_SIZE
  {
    f[PACKET_SIZE * k..if PACKET_SIZE * (k + 1) <= |f| then PACKET_SIZE * (k + 1) else |f|]
  }

  /** Sizes of the frame and of this piece, number of pieces, number of this one, and eight zero bytes. */
  function Header(total: nat, size: nat, packets: nat, packet: nat): (h: Text)
    requires total <= MAX_SIZE && size <= MAX_SIZE && packets <= MAX_SIZE && packet <= MAX_SIZE
    ensures |h| == PACKET_HEADER_SIZE
  {
    Le32(total) + Le32(size) + Le32(packets) + Le32(packet) + [0, 0, 0, 0, 0, 0, 0, 0]
  }

  function Datagram(f: Frame, k: nat): Text
    requires k < PacketCount(|f|)
  {
    Header(|f|, |Piece(f, k)|, PacketCount(|f|), k + 1) + Piece(f, k)
  }

  function Fragments(f: Frame): (ds: seq<Text>)
    ensures |ds| == PacketCount(|f|)
  {
    seq(PacketCount(|f|), k requires 0 <= k < PacketCount(|f|) => Datagram(f, k))
  }

  // ---------------------------------------------------------------- the receiving side

  datatype Option<+T> = None | Some(value: T)

  predicate HasHeader(d: Text) {
    |d| >= PACKET_HEADER_SIZE
  }

  function TotPacket(d: Text): nat
    requires HasHeader(d)
  {
    FromLe32(d[8..12])
  }

  function CurPacket(d: Text): nat
    requires HasHeader(d)
  {
    FromLe32(d[12..16])
  }

  function Payload(d: Text): Text
    requires HasHeader(d)
  {
    var n := FromLe32(d[4..8]);
    if PACKET_HEADER_SIZE + n <= |d| then d[PACKET_HEADER_SIZE..PACKET_HEADER_SIZE + n] else []
  }

  /** The payload of the first datagram that carries this number. */
  function Find(ds: seq<Text>, number: nat): Option<Text> {
    if ds == [] then None
    else if HasHeader(ds[0]) && CurPacket(ds[0]) == number then Some(Payload(ds[0]))
    else Find(ds[1..], number)
  }

  /** The payloads numbered 1 to `n`, in this order, if all of them are there. */
  function Collect(ds: seq<Text>, n: nat): Option<Text> {
    if n == 0 then Some([])
    else
      match (Collect(ds, n - 1), Find(ds, n))
      case (Some(front), Some(last)) => Some(front + last)
      case _ => None
  }

  /** A frame from datagrams in any order, by the fields of their headers alone. */
  function Reassemble(ds: seq<Text>): Option<Text> {
    if ds == [] || !HasHeader(ds[0]) then None else Collect(ds, TotPacket(ds[0]))
  }

  // ---------------------------------------------------------------- sending

  /** The socket: what has gone out, and which attempts succeed. */
  class Socket {
    const accepts: nat -> bool
    var sent: seq<Text>
    var attempts: nat

    constructor (accepts: nat -> bool)
      ensures this.accepts == accepts && sent == [] && attempts == 0
    {
      this.accepts := accepts;
      sent, attempts := [], 0;
    }

    method SendTo(buffer: array<Byte>, size: nat) returns (n: int)
      requires size <= buffer.Length
      modifies this
      ensures attempts == old(attempts) + 1
      ensures if accepts(old(attempts)) then n == size && sent == old(sent) + [buffer[..size]]
              else n == -1 && sent == old(sent)
    {
      n := -1;
      if accepts(attempts) {
        sent := sent + [buffer[..size]];
        n := size;
      }
      attempts := attempts + 1;
    }
  }

  method MemCpy(buffer: array<Byte>, at: nat, source: Text)
    requires at + |source| <= buffer.Length
    modifies buffer
    ensures buffer[..] == old(buffer[..at]) + source + old(buffer[at + |source|..])
    ensures buffer[..at + |source|] == old(buffer[..at]) + source
  {
    for i := 0 to |source|
      invariant forall k :: 0 <= k < i ==> buffer[at + k] == source[k]
      invariant forall k :: 0 <= k < at || at + i <= k < buffer.Length ==> buffer[k] == old(buffer[k])
    {
      buffer[at + i] := source[i];
    }
  }

  /** The four numbers at the front of the buffer. */
  method FillNumbers(buffer: array<Byte>, total: nat, size: nat, packets: nat, packet: nat)
    requires buffer.Length == PACKET_HEADER_SIZE + PACKET_SIZE
    requires total <= MAX_SIZE && size <= MAX_SIZE && packets <= MAX_SIZE && packet <= MAX_SIZE
    modifies buffer
    ensures buffer[..16] == Le32(total) + Le32(size) + Le32(packets) + Le32(packet)
  {
    hide Le32;
    assert buffer[..0] == [];
    MemCpy(buffer, 0, Le32(total));
    assert buffer[..4] == Le32(total);
    MemCpy(buffer, 4, Le32(size));
    MemCpy(buffer, 8, Le32(packets));
    MemCpy(buffer, 12, Le32(packet));
  }

  /** Fill the buffer with the header and one piece. */
  method FillBuffer(buffer: array<Byte>, total: nat, packets: nat, packet: nat, piece: Text)
    requires buffer.Length == PACKET_HEADER_SIZE + PACKET_SIZE && |piece| <= PACKET_SIZE
    requires total <= MAX_SIZE && packets <= MAX_SIZE && packet <= MAX_SIZE
    modifies buffer
    ensures buffer[..PACKET_HEADER_SIZE + |piece|] == Header(total, |piece|, packets, packet) + piece
  {
    hide Le32;
    FillNumbers(buffer, total, |piece|, packets, packet);
    ghost var numbers := buffer[..16];
    MemCpy(buffer, 16, [0]);
    MemCpy(buffer, 17, [0]);
    MemCpy(buffer, 18, [0]);
    assert buffer[..19] == numbers + [0, 0, 0];
    MemCpy(buffer, 19, [0, 0, 0, 0, 0]);
    assert buffer[..24] == numbers + [0, 0, 0, 0, 0, 0, 0, 0];
    MemCpy(buffer, 24, piece);
  }

  /** All attempts from `first` on, `n` of them, succeed. */
  predicate AllAccepted(accepts: nat -> bool, first: nat, n: nat) {
    forall i :: first <= i < first + n ==> accepts(i)
  }

  /** How many of the `n` attempts from `first` on succeed before the first that fails. */
  function Accepted(accepts: nat -> bool, first: nat, n: nat): (k: nat)
    ensures k <= n && AllAccepted(accepts, first, k) && (k < n ==> !accepts(first + k))
    decreases n
  {
    if n == 0 || !accepts(first) then 0 else 1 + Accepted(accepts, first + 1, n - 1)
  }

  lemma AcceptedIs(accepts: nat -> bool, first: nat, n: nat, k: nat)
    requires k <= n && AllAccepted(accepts, first, k) && (k < n ==> !accepts(first + k))
    ensures Accepted(accepts, first, n) == k
  {
  }

  /** Datagrams go out in order until one attempt fails; the verdict says whether all went out. The failing
      attempt is the last one made. */
  method SendBitstream(socket: Socket, stream: Frame) returns (ok: bool)
    modifies socket
    ensures var n := PacketCount(|stream|);
            var k := Accepted(socket.accepts, old(socket.attempts), n);
            && (ok <==> k == n)
            && socket.sent == old(socket.sent) + Fragments(stream)[..k]
            && socket.attempts == old(socket.attempts) + k + if ok then 0 else 1
  {
    hide Header, Accepted, Le32;
    var totSize, remain := |stream|, |stream|;
    var totPacket: nat;
    if totSize % PACKET_SIZE == 0 {
      totPacket := totSize / PACKET_SIZE;
    } else {
      totPacket := totSize / PACKET_SIZE + 1;
    }
    assert totPacket == PacketCount(|stream|);
    var buffer := new Byte[PACKET_HEADER_SIZE + PACKET_SIZE];
    var p := 0;
    var curPacket := 1;
    while remain > 0
      invariant 0 <= remain && p + remain == totSize && 1 <= curPacket <= totPacket + 1
      invariant if remain > 0 then p == PACKET_SIZE * (curPacket - 1) && curPacket <= totPacket
                else curPacket == totPacket + 1
      invariant socket.attempts == old(socket.attempts) + curPacket - 1
      invariant AllAccepted(socket.accepts, old(socket.attempts), curPacket - 1)
      invariant socket.sent == old(socket.sent) + Fragments(stream)[..curPacket - 1]
    {
      var curSize := if remain > PACKET_SIZE then PACKET_SIZE else remain;
      FillBuffer(buffer, totSize, totPacket, curPacket, stream[p..p + curSize]);
      assert Fragments(stream)[curPacket - 1] == buffer[..PACKET_HEADER_SIZE + curSize];
      var nSendto := socket.SendTo(buffer, PACKET_HEADER_SIZE + curSize);
      if nSendto < 0 {
        AcceptedIs(socket.accepts, old(socket.attempts), totPacket, curPacket - 1);
        return false;
      }
      assert Fragments(stream)[..curPacket] == Fragments(stream)[..curPacket - 1] + [Fragments(stream)[curPacket - 1]];
      remain := remain - curSize;
      p := p + curSize;
      curPacket := curPacket + 1;
    }
    AcceptedIs(socket.accepts, old(socket.attempts), totPacket, totPacket);
    ok := true;
  }

  // ---------------------------------------------------------------- reassembly is exact

  lemma HeaderFields(f: Frame, k: nat)
    requires k < PacketCount(|f|)
    ensures var d := Datagram(f, k);
            HasHeader(d) && TotPacket(d) == PacketCount(|f|) && CurPacket(d) == k + 1 && Payload(d) == Piece(f, k)
  {
    hide Le32, FromLe32;
    var d, n, p := Datagram(f, k), PacketCount(|f|), Piece(f, k);
    assert d[4..8] == Le32(|p|) && d[8..12] == Le32(n) && d[12..16] == Le32(k + 1);
    Le32RoundTrip(|p|);
    Le32RoundTrip(n);
    Le32RoundTrip(k + 1);
    assert d[PACKET_HEADER_SIZE..] == p;
  }

  /** The four bytes from `at` on denote `n`, the lowest byte first. */
  predicate Says(d: Text, at: nat, n: nat) {
    at + 4 <= |d| && d[at] as int + 256 * d[at + 1] as int + 65536 * d[at + 2] as int + 16777216 * d[at + 3] as int == n
  }

  /** A datagram byte by byte: the size of the frame, the size of this piece, how many pieces there are and which
      one this is, counted from one, eight zero bytes, and up to 4096 bytes of the frame. */
  lemma DatagramBytes(f: Frame, k: nat)
    requires k < PacketCount(|f|)
    ensures var d, n := Datagram(f, k), PacketCount(|f|);
            var p := f[4096 * k..if 4096 * (k + 1) <= |f| then 4096 * (k + 1) else |f|];
            && |d| == 24 + |p|
            && Says(d, 0, |f|) && Says(d, 4, |p|) && Says(d, 8, n) && Says(d, 12, k + 1)
            && d[16..24] == [0, 0, 0, 0, 0, 0, 0, 0] && d[24..] == p
            && 4096 * (n - 1) < |f| <= 4096 * n
  {
    hide Says, Header;
    var n, p := PacketCount(|f|), Piece(f, k);
    var h := Header(|f|, |p|, n, k + 1);
    HeaderBytes(|f|, |p|, n, k + 1);
    SaysInFront(h, p, 0, |f|);
    SaysInFront(h, p, 4, |p|);
    SaysInFront(h, p, 8, n);
    SaysInFront(h, p, 12, k + 1);
    assert (h + p)[16..24] == h[16..24] && (h + p)[24..] == p;
  }

  lemma HeaderBytes(total: nat, size: nat, packets: nat, packet: nat)
    requires total <= MAX_SIZE && size <= MAX_SIZE && packets <= MAX_SIZE && packet <= MAX_SIZE
    ensures var h := Header(total, size, packets, packet);
            && Says(h, 0, total) && Says(h, 4, size) && Says(h, 8, packets) && Says(h, 12, packet)
            && h[16..24] == [0, 0, 0, 0, 0, 0, 0, 0]
  {
    hide Le32;
    var h := Header(total, size, packets, packet);
    Le32Says(total, h, 0);
    Le32Says(size, h, 4);
    Le32Says(packets, h, 8);
    Le32Says(packet, h, 12);
  }

  lemma SaysInFront(h: Text, p: Text, at: nat, n: nat)
    requires Says(h, at, n)
    ensures Says(h + p, at, n)
  {
  }

  lemma Le32Says(n: nat, d: Text, at: nat)
    requires n <= MAX_SIZE && at + 4 <= |d| && forall i :: 0 <= i < 4 ==> d[at + i] == Le32(n)[i]
    ensures Says(d, at, n)
  {
    Le32RoundTrip(n);
    hide Le32;
    assert d[at] == Le32(n)[0] && d[at + 1] == Le32(n)[1] && d[at + 2] == Le32(n)[2] && d[at + 3] == Le32(n)[3];
  }

  /** Only datagrams of this frame, in any order and possibly repeated. */
  predicate FromFrame(ds: seq<Text>, f: Frame) {
    forall d :: d in ds ==> d in Fragments(f)
  }

  lemma {:induction false} FindExact(ds: seq<Text>, f: Frame, k: nat)
    requires FromFrame(ds, f) && k < PacketCount(|f|)
    ensures Find(ds, k + 1) == if Datagram(f, k) in ds then Some(Piece(f, k)) else None
  {
    hide Datagram, HasHeader, CurPacket, Payload, TotPacket;
    if ds != [] {
      assert ds[0] in Fragments(f);
      var j :| 0 <= j < PacketCount(|f|) && Fragments(f)[j] == ds[0];
      HeaderFields(f, j);
      HeaderFields(f, k);
      assert forall d :: d in ds[1..] ==> d in ds;
      FindExact(ds[1..], f, k);
      assert ds == [ds[0]] + ds[1..];
    }
  }

  /** The first `n` pieces are the frame up to where they reach. */
  lemma {:induction false} CollectExact(ds: seq<Text>, f: Frame, n: nat)
    requires FromFrame(ds, f) && n <= PacketCount(|f|)
    ensures Collect(ds, n)
         == if forall k :: 0 <= k < n ==> Datagram(f, k) in ds
            then Some(f[..if PACKET_SIZE * n <= |f| then PACKET_SIZE * n else |f|]) else None
  {
    hide Datagram, Find;
    if n > 0 {
      CollectExact(ds, f, n - 1);
      FindExact(ds, f, n - 1);
      var end := if PACKET_SIZE * n <= |f| then PACKET_SIZE * n else |f|;
      assert f[..PACKET_SIZE * (n - 1)] + Piece(f, n - 1) == f[..end];
    }
  }

  /** From datagrams of one frame, in any order and with repetitions, exactly that frame comes out if
      none is missing, and nothing comes out otherwise. */
  lemma ReassembleExact(ds: seq<Text>, f: Frame)
    requires FromFrame(ds, f) && ds != []
    ensures Reassemble(ds) == if forall d :: d in Fragments(f) ==> d in ds then Some(f) else None
  {
    hide Datagram, Collect;
    assert ds[0] in Fragments(f);
    var j :| 0 <= j < PacketCount(|f|) && Fragments(f)[j] == ds[0];
    HeaderFields(f, j);
    var n := PacketCount(|f|);
    CollectExact(ds, f, n);
    assert f[..|f|] == f;
    if forall d :: d in Fragments(f) ==> d in ds {
      forall k | 0 <= k < n
        ensures Datagram(f, k) in ds
      {
        assert Fragments(f)[k] == Datagram(f, k);
      }
    } else {
      var d :| d in Fragments(f) && d !in ds;
      var k :| 0 <= k < n && Fragments(f)[k] == d;
      assert Datagram(f, k) !in ds;
    }
  }

  /** In particular any permutation of a frame's datagrams gives the frame back. */
  lemma ReassembleAnyOrder(ds: seq<Text>, f: Frame)
    requires f != [] && multiset(ds) == multiset(Fragments(f))
    ensures Reassemble(ds) == Some(f)
  {
    forall d
      ensures d in ds <==> d in Fragments(f)
    {
      assert d in ds <==> d in multiset(ds);
      assert d in Fragments(f) <==> d in multiset(Fragments(f));
    }
    assert Fragments(f)[0] in Fragments(f);
    ReassembleExact(ds, f);
  }
}
