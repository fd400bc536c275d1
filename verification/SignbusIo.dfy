/**
 * The network layer of signbus: datagrams are cut into fragments for a bus that carries 255 bytes at a time, and put
 * together again from a stream that mixes in packets of other datagrams.
 */
module SignbusIo {
  import opened Bytes

  const PORT_I2C_MAX_LEN: nat := 255
  const HEADER: nat := 8
  const MAX_DATA_LEN: nat := 247

  /** A packet on the bus, header included. */
  type Packet = p: seq<byte> | 8 <= |p| <= 255 witness seq(8, _ => 0)

  // ---- the wire format -----------------------------------------------------------------------------

  /** A 16-bit number in network order. */
  function Ld16(p: seq<byte>, i: nat): (x: nat)
    requires i + 2 <= |p|
    ensures x < 0x1_0000
  {
    p[i] as int * 0x100 + p[i + 1] as int
  }

  function FlagFragment(p: Packet): bool { p[0] as int % 2 == 1 }

  function FlagEncrypted(p: Packet): bool { p[0] as int / 2 % 2 == 1 }

  function Src(p: Packet): byte { p[1] }

  function SequenceNumber(p: Packet): nat { Ld16(p, 2) }

  function Offset(p: Packet): nat { Ld16(p, 6) }

  /** The header: flags and version, source, number, length of all, place of the data; numbers in network order. */
  lemma WireFormat(p: Packet)
    ensures Src(p) == p[1] && SequenceNumber(p) / 0x100 == p[2] as int && SequenceNumber(p) % 0x100 == p[3] as int
    ensures Offset(p) / 0x100 == p[6] as int && Offset(p) % 0x100 == p[7] as int
    ensures p[0] as int % 4 == (if FlagFragment(p) then 1 else 0) + if FlagEncrypted(p) then 2 else 0
  {
  }

  /** What makes packets belong together. */
  predicate SameDatagram(p: Packet, q: Packet) { Src(p) == Src(q) && SequenceNumber(p) == SequenceNumber(q) }

  /** The number of fragments of n bytes. */
  function Pieces(n: nat): nat { (n + 246) / 247 }

  /** No more than are needed for 247 bytes each. */
  lemma FewPieces(n: nat)
    ensures 247 * Pieces(n) - 247 < n <= 247 * Pieces(n) || n == Pieces(n) == 0
  {
  }

  /** p is fragment k of the data, from the node and with the number given. */
  predicate Fragment(p: Packet, src: byte, number: nat, encrypted: bool, data: seq<byte>, k: nat)
    requires k < Pieces(|data|)
  {
    && Src(p) == src && SequenceNumber(p) == number && FlagEncrypted(p) == encrypted
    && (FlagFragment(p) <==> k + 1 < Pieces(|data|))
    && Offset(p) == k * MAX_DATA_LEN % 0x1_0000
    && p[HEADER..] == Piece(data, k)
  }

  /** The length field: data and headers of all fragments together, in 16 bits. */
  function TotalLength(p: Packet): nat { Ld16(p, 4) }

  /** What a datagram of n bytes takes on the bus. */
  function OnBus(n: nat): nat { Pieces(n) * HEADER + n }

  /** p is fragment k as Send puts it on the bus. */
  predicate Outgoing(p: Packet, src: byte, number: nat, encrypted: bool, data: seq<byte>, k: nat)
    requires k < Pieces(|data|)
  {
    && Fragment(p, src, number, encrypted, data, k) && p[0] as int / 4 == 4
    && TotalLength(p) == OnBus(|data|) % 0x1_0000
  }

  /** The k-th part of the data. */
  function Part(data: seq<byte>, k: nat): seq<byte>
    requires k < Pieces(|data|)
  {
    if (k + 1) * MAX_DATA_LEN < |data| then data[k * MAX_DATA_LEN..(k + 1) * MAX_DATA_LEN] else data[k * MAX_DATA_LEN..]
  }

  /** The first k parts one after the other. */
  function Parts(data: seq<byte>, k: nat): seq<byte>
    requires k <= Pieces(|data|)
  {
    if k == 0 then [] else Parts(data, k - 1) + Part(data, k - 1)
  }

  /** What they take on the bus, with a header of 8 bytes each. */
  function PartsOnBus(data: seq<byte>, k: nat): nat
    requires k <= Pieces(|data|)
  {
    if k == 0 then 0 else PartsOnBus(data, k - 1) + 8 + |Part(data, k - 1)|
  }

  lemma {:induction false} PartsSoFar(data: seq<byte>, k: nat)
    requires k <= Pieces(|data|)
    ensures Parts(data, k) == if k * 247 < |data| then data[..k * 247] else data
    ensures PartsOnBus(data, k) == 8 * k + |Parts(data, k)|
  {
    if k > 0 {
      PartsSoFar(data, k - 1);
      assert (k - 1) * 247 < |data|;
    }
  }

  /** All parts in their order are the data, and the length field is what they take on the bus. */
  lemma PartsAreAll(data: seq<byte>)
    ensures Parts(data, Pieces(|data|)) == data && PartsOnBus(data, Pieces(|data|)) == OnBus(|data|)
  {
    PartsSoFar(data, Pieces(|data|));
  }

  /**
   * What is sent as the k-th part: its place is counted in 16 bits, so far into long data it is taken from further up
   * front.
   */
  function Piece(data: seq<byte>, k: nat): (r: seq<byte>)
    requires k < Pieces(|data|)
    ensures |r| == |Part(data, k)|
  {
    var offset := k * MAX_DATA_LEN % 0x1_0000;
    data[offset..offset + |Part(data, k)|]
  }

  // ---- sending -------------------------------------------------------------------------------------

  class Node {
    const address: byte
    var sequenceNumber: nat

    ghost predicate Valid()
      reads this
    {
      sequenceNumber < 0x1_0000
    }

    constructor (a: byte)
      ensures Valid() && address == a && sequenceNumber == 0
    {
      address, sequenceNumber := a, 0;
    }

    /** The next datagram, whether it is sent or offered for reading, has the next number. */
    method NextNumber()
      requires Valid()
      modifies this
      ensures Valid() && sequenceNumber == (old(sequenceNumber) + 1) % 0x1_0000
    {
      sequenceNumber := (sequenceNumber + 1) % 0x1_0000;
    }

    /**
     * signbus_io_send: the packets that go out, in order, are exactly the fragments of the data, or the first of them
     * if the bus fails; empty data send nothing.
     */
    method Send(encrypted: bool, data: seq<byte>) returns (ok: bool, out: seq<Packet>)
      requires Valid()
      modifies this
      ensures Valid() && sequenceNumber == (old(sequenceNumber) + 1) % 0x1_0000
      ensures if ok then |out| == Pieces(|data|) else |out| < Pieces(|data|)
      ensures forall k :: 0 <= k < |out| ==> Outgoing(out[k], address, sequenceNumber, encrypted, data, k)
    {
      hide Outgoing, Piece, Pieces;
      NextNumber();
      var packet := new byte[PORT_I2C_MAX_LEN](_ => 0);
      var len, toSend := |data|, |data|;
      var numPackets := if len % MAX_DATA_LEN != 0 then len / MAX_DATA_LEN + 1 else len / MAX_DATA_LEN;
      var flags: nat := (if encrypted then 2 else 0) + 0x10;
      LengthField(len, numPackets);
      SetHeader(packet, address, sequenceNumber, numPackets % 0x1_0000 * HEADER + len);
      ok, out := true, [];
      PiecesStart(len);
      while toSend > 0
        modifies packet
        invariant toSend <= len && packet[1] == address && packet[2] as int * 0x100 + packet[3] as int == sequenceNumber
        invariant packet[4] as int * 0x100 + packet[5] as int == OnBus(len) % 0x1_0000
        invariant |out| <= Pieces(len) && ok
        invariant if toSend > 0 then len - toSend == |out| * MAX_DATA_LEN && |out| < Pieces(len)
                  else |out| == Pieces(len)
        invariant forall k :: 0 <= k < |out| ==> Outgoing(out[k], address, sequenceNumber, encrypted, data, k)
      {
        Numbers(len, toSend, |out|);
        var p := Build(packet, flags, encrypted, data, toSend, sequenceNumber, |out|);
        ok := *;  // port_signpost_i2c_master_write
        if !ok { return; }
        out := out + [p];
        toSend := if toSend > MAX_DATA_LEN then toSend - MAX_DATA_LEN else 0;
      }
    }

    /** One pass of the sending loop: the packet for the part of the data of which toSend bytes are left. */
    method Build(packet: array<byte>, flags: nat, encrypted: bool, data: seq<byte>, toSend: nat, number: nat,
                 ghost k: nat)
      returns (p: Packet)
      requires packet.Length == PORT_I2C_MAX_LEN && flags == (if encrypted then 2 else 0) + 0x10
      requires 0 < toSend <= |data| && |data| - toSend == k * MAX_DATA_LEN && k < Pieces(|data|)
      requires packet[1] == address && packet[2] as int * 0x100 + packet[3] as int == number
      requires packet[4] as int * 0x100 + packet[5] as int == OnBus(|data|) % 0x1_0000
      modifies packet
      ensures Outgoing(p, address, number, encrypted, data, k)
      ensures packet[1] == address && packet[2] as int * 0x100 + packet[3] as int == number
      ensures packet[4] as int * 0x100 + packet[5] as int == OnBus(|data|) % 0x1_0000
    {
      hide Piece, Part, Pieces, OnBus, Outgoing;
      var morePackets := toSend > MAX_DATA_LEN;
      var start := |data| - toSend;
      var offset := start % 0x1_0000;
      packet[0] := if morePackets then flags + 1 else flags;
      SetBe16(packet, 6, offset);
      var n := if morePackets then MAX_DATA_LEN else toSend;
      Numbers(|data|, toSend, k);
      Due(data, toSend, k);
      PutPart(packet, data[offset..offset + n]);
      p := packet[..HEADER + n];
      assert p[HEADER..] == packet[HEADER..HEADER + n];
      IsOutgoing(p, address, number, encrypted, data, k);
    }
  }

  /** Source, number and length field of a packet. */
  method SetHeader(packet: array<byte>, src: byte, number: nat, length: nat)
    requires packet.Length == PORT_I2C_MAX_LEN && number < 0x1_0000
    modifies packet
    ensures packet[0] == old(packet[0]) && packet[1] == src
    ensures packet[2] as int * 0x100 + packet[3] as int == number
    ensures packet[4] as int * 0x100 + packet[5] as int == length % 0x1_0000
  {
    packet[1] := src;
    SetBe16(packet, 2, number);
    SetBe16(packet, 4, length);
  }

  /** The data go behind the header, which stays. */
  method PutPart(packet: array<byte>, part: seq<byte>)
    requires HEADER + |part| <= packet.Length
    modifies packet
    ensures packet[HEADER..HEADER + |part|] == part && forall i :: 0 <= i < HEADER ==> packet[i] == old(packet[i])
  {
    CopyInto(packet, HEADER, part);
    assert packet[HEADER..HEADER + |part|] == packet[..][HEADER..HEADER + |part|];
  }

  lemma IsOutgoing(p: Packet, src: byte, number: nat, encrypted: bool, data: seq<byte>, k: nat)
    requires k < Pieces(|data|) && p[1] == src && Ld16(p, 2) == number && Ld16(p, 4) == OnBus(|data|) % 0x1_0000
    requires p[0] as int == (if encrypted then 2 else 0) + 0x10 + (if k + 1 < Pieces(|data|) then 1 else 0)
    requires Ld16(p, 6) == k * MAX_DATA_LEN % 0x1_0000 && p[HEADER..] == Piece(data, k)
    ensures Outgoing(p, src, number, encrypted, data, k)
  {
    hide Piece, Pieces, OnBus, Ld16;
  }

  lemma PiecesStart(len: nat)
    ensures len > 0 <==> Pieces(len) > 0
  {
  }

  /** The number of packets is counted in 16 bits, which makes no difference to the length field. */
  lemma LengthField(len: nat, numPackets: nat)
    requires numPackets == if len % MAX_DATA_LEN != 0 then len / MAX_DATA_LEN + 1 else len / MAX_DATA_LEN
    ensures (numPackets % 0x1_0000 * HEADER + len) % 0x1_0000 == OnBus(len) % 0x1_0000
  {
    assert numPackets == Pieces(len);
    var n := numPackets;
    assert n == 0x1_0000 * (n / 0x1_0000) + n % 0x1_0000;
    SameRemainder(n % 0x1_0000 * HEADER + len, HEADER * (n / 0x1_0000));
  }

  lemma SameRemainder(x: nat, q: nat)
    ensures x % 0x1_0000 == (x + 0x1_0000 * q) % 0x1_0000
  {
  }

  lemma Numbers(len: nat, toSend: nat, k: nat)
    requires 0 < toSend <= len && len - toSend == k * MAX_DATA_LEN
    ensures if toSend > MAX_DATA_LEN then k + 1 < Pieces(len) else k + 1 == Pieces(len)
  {
  }

  /** The piece that is due when toSend bytes are left. */
  lemma Due(data: seq<byte>, toSend: nat, k: nat)
    requires 0 < toSend <= |data| && |data| - toSend == k * MAX_DATA_LEN && k < Pieces(|data|)
    ensures var offset, n := (|data| - toSend) % 0x1_0000, if toSend > MAX_DATA_LEN then MAX_DATA_LEN else toSend;
            offset + n <= |data| && Piece(data, k) == data[offset..offset + n]
  {
  }

  /** The flags with the fragment bit set or cleared. */
  function WithFragment(b: byte, fragment: bool): (r: byte)
    ensures r as int % 2 == (if fragment then 1 else 0) && r as int / 2 == b as int / 2
  {
    if fragment then b as int / 2 * 2 + 1 else b as int / 2 * 2
  }

  method SetBe16(a: array<byte>, i: nat, x: nat)
    requires i + 2 <= a.Length
    modifies a
    ensures forall j :: 0 <= j < a.Length && j != i && j != i + 1 ==> a[j] == old(a[j])
    ensures a[i] == x / 0x100 % 0x100 && a[i + 1] == x % 0x100
    ensures a[i] as int * 0x100 + a[i + 1] as int == x % 0x1_0000
  {
    a[i], a[i + 1] := x / 0x100 % 0x100, x % 0x100;
  }

  // ---- receiving -----------------------------------------------------------------------------------

  /**
   * Where in a stream of packets the fragments of a datagram come: the first at once, the others in order, and in
   * between only packets of other datagrams.
   */
  ghost predicate Carries(stream: seq<Packet>, at: seq<nat>, src: byte, number: nat, encrypted: bool, data: seq<byte>) {
    && |at| == Pieces(|data|) > 0 && at[0] == 0
    && (forall j, k :: 0 <= j < k < |at| ==> at[j] < at[k])
    && (forall k :: 0 <= k < |at| ==> at[k] < |stream| && Fragment(stream[at[k]], src, number, encrypted, data, k))
    && (forall i :: 0 <= i < |stream| && i !in at && i < at[|at| - 1] ==>
      !(Src(stream[i]) == src && SequenceNumber(stream[i]) == number))
  }

  /** The last fragment's place can be written in 16 bits. */
  predicate Addressable(n: nat) {
    n > 0 && (Pieces(n) - 1) * MAX_DATA_LEN < 0x1_0000
  }

  /**
   * A datagram of n bytes can be received into a buffer of len: no fragment that is looked at has its place cut to 16
   * bits.
   */
  predicate Deliverable(n: nat, len: nat) {
    Addressable(n) || len < 65702
  }

  /** A place in the buffer that no fragment of a longer datagram is stored to. */
  function Stale(n: nat): nat {
    if n <= 65782 then 65702 else 65782
  }

  /** The data, cut to the buffer, and nothing else is reported as received. */
  predicate Delivered(b: seq<byte>, data: seq<byte>, n: nat) {
    n == (if |data| < |b| then |data| else |b|) && Agree(b, data, n)
  }

  /**
   * What get_message makes of a buffer: the data cut to it, if they are deliverable. If they are not it reports more
   * bytes than the buffer has, or counts one it has not stored.
   */
  predicate Outcome(b: seq<byte>, was: seq<byte>, data: seq<byte>, n: nat)
    requires |b| == |was|
  {
    if Deliverable(|data|, |b|) then Delivered(b, data, n)
    else n > |b| || (n == |data| && Stale(|data|) < n && b[Stale(|data|)] == was[Stale(|data|)])
  }

  /** A datagram that is not deliverable arrives wrong, unless the buffer by chance held the byte that is missing. */
  lemma NotDelivered(b: seq<byte>, was: seq<byte>, data: seq<byte>, n: nat)
    requires |b| == |was| && |data| > 0 && !Deliverable(|data|, |b|) && Outcome(b, was, data, n)
    requires Stale(|data|) < |b| && Stale(|data|) < |data| ==> was[Stale(|data|)] != data[Stale(|data|)]
    ensures !Delivered(b, data, n)
  {
    var p := Stale(|data|);
    assert p < |data|;
    if n <= |b| {
      assert b[p] == b[..n][p] && data[p] == data[..n][p];
    }
  }

  /** The buffer with k fragments stored, and more to come. */
  predicate Partly(b: seq<byte>, was: seq<byte>, data: seq<byte>, k: nat) {
    && |b| == |was| && k < Pieces(|data|)
    && if k <= 266 then
         && k * MAX_DATA_LEN <= |b| && Agree(b, data, k * MAX_DATA_LEN)
         && b[k * MAX_DATA_LEN..] == was[k * MAX_DATA_LEN..]
       else |b| >= 65702 && (Stale(|data|) < |b| ==> b[Stale(|data|)] == was[Stale(|data|)])
  }

  /** How much of the k-th fragment is stored in a buffer of len. */
  function Taken(data: seq<byte>, k: nat, len: nat): nat
    requires k < Pieces(|data|) && k * MAX_DATA_LEN % 0x1_0000 <= len
  {
    var at := k * MAX_DATA_LEN % 0x1_0000;
    if |Part(data, k)| > len - at then len - at else |Part(data, k)|
  }

  /** The buffer after the k-th fragment. */
  function Taking(b: seq<byte>, data: seq<byte>, k: nat): (r: seq<byte>)
    requires k < Pieces(|data|) && k * MAX_DATA_LEN % 0x1_0000 <= |b|
    ensures |r| == |b|
  {
    var at := k * MAX_DATA_LEN % 0x1_0000;
    b[..at] + Piece(data, k)[..Taken(data, k, |b|)] + b[at + Taken(data, k, |b|)..]
  }

  lemma PartlyRoom(b: seq<byte>, was: seq<byte>, data: seq<byte>, k: nat)
    requires Partly(b, was, data, k)
    ensures k * MAX_DATA_LEN % 0x1_0000 <= |b|
  {
  }

  /** A fragment more; done if it is the last, or there is no room for a whole one. */
  lemma TakenNext(b: seq<byte>, was: seq<byte>, data: seq<byte>, k: nat)
    requires Partly(b, was, data, k) && k * MAX_DATA_LEN % 0x1_0000 <= |b|
    ensures if k + 1 == Pieces(|data|) || k * MAX_DATA_LEN % 0x1_0000 + MAX_DATA_LEN > |b|
            then Outcome(Taking(b, data, k), was, data, k * MAX_DATA_LEN + Taken(data, k, |b|))
            else Taken(data, k, |b|) == MAX_DATA_LEN && Partly(Taking(b, data, k), was, data, k + 1)
  {
    hide Taking;
    if k <= 265 { TakenInPlace(b, was, data, k); } else { TakenWrapped(b, was, data, k); }
  }

  lemma TakenInPlace(b: seq<byte>, was: seq<byte>, data: seq<byte>, k: nat)
    requires Partly(b, was, data, k) && k <= 265 && k * MAX_DATA_LEN % 0x1_0000 <= |b|
    ensures k * MAX_DATA_LEN % 0x1_0000 == k * MAX_DATA_LEN
    ensures var to := k * MAX_DATA_LEN + Taken(data, k, |b|);
            to <= |b| && Agree(Taking(b, data, k), data, to) && Taking(b, data, k)[to..] == was[to..]
  {
    var at, n := k * MAX_DATA_LEN, Taken(data, k, |b|);
    PieceInPlace(data, k, n);
    hide Part, Pieces, Taken, Piece;
    InPlace(b, was, data, at, n);
  }

  lemma PieceInPlace(data: seq<byte>, k: nat, n: nat)
    requires k <= 265 && k < Pieces(|data|) && n <= |Part(data, k)|
    ensures k * MAX_DATA_LEN + n <= |data|
    ensures Piece(data, k)[..n] == data[k * MAX_DATA_LEN..k * MAX_DATA_LEN + n]
  {
    assert k * MAX_DATA_LEN % 0x1_0000 == k * MAX_DATA_LEN;
  }

  lemma InPlace(b: seq<byte>, was: seq<byte>, data: seq<byte>, at: nat, n: nat)
    requires |b| == |was| && at + n <= |b| && at + n <= |data| && b[..at] == data[..at] && b[at..] == was[at..]
    ensures var r := b[..at] + data[at..at + n] + b[at + n..]; Agree(r, data, at + n) && r[at + n..] == was[at + n..]
  {
    assert b[at + n..] == b[at..][n..] && was[at + n..] == was[at..][n..];
    assert data[..at + n] == data[..at] + data[at..at + n];
  }

  lemma TakenWrapped(b: seq<byte>, was: seq<byte>, data: seq<byte>, k: nat)
    requires Partly(b, was, data, k) && k > 265 && k * MAX_DATA_LEN % 0x1_0000 <= |b|
    ensures Stale(|data|) < |b| ==> Taking(b, data, k)[Stale(|data|)] == was[Stale(|data|)]
  {
  }

  /**
   * get_message, run over the packets as they arrive: of a datagram whose fragments come in order it delivers source,
   * encryption flag and as much of the data as the buffer holds, whatever packets of other datagrams come between; but
   * not of one whose offsets do not fit 16 bits, unless the buffer is full before it comes to those.
   */
  method GetMessage(stream: seq<Packet>, buf: array<byte>, ghost at: seq<nat>, ghost src: byte, ghost number: nat,
                    ghost encrypted: bool,
                    ghost data: seq<byte>)
    returns (lengthReceived: nat, enc: bool, from: byte)
    requires Carries(stream, at, src, number, encrypted, data)
    modifies buf
    ensures enc == encrypted && from == src && Outcome(buf[..], old(buf[..]), data, lengthReceived)
  {
    hide Carries, Fragment, Piece, Part, Pieces, FlagFragment, FlagEncrypted, Offset, SequenceNumber, SameDatagram,
      Outcome, Partly, Taken, Taking;
    lengthReceived := 0;
    NotEmpty(stream, at, src, number, encrypted, data);
    var first, i := stream[0], 1;
    ghost var k := 0;
    Facts(stream, at, src, number, encrypted, data, 0, first);
    NothingTaken(buf[..], data);
    enc, from := FlagEncrypted(first), Src(first);
    ghost var was := buf[..];
    var n, done := TakePacket(buf, first, data, 0, was);
    lengthReceived := n;
    while !done
      invariant k < |at| == Pieces(|data|) && i == at[k] + 1 && enc == encrypted && from == src
      invariant if done then Outcome(buf[..], was, data, lengthReceived)
                else lengthReceived == (k + 1) * MAX_DATA_LEN && k + 1 < |at| && Partly(buf[..], was, data, k + 1)
      decreases !done, |at| - k
    {
      var packet;
      packet, i := Await(stream, i, first, at, src, number, encrypted, data, k);
      k := k + 1;
      from := Src(packet);
      n, done := TakePacket(buf, packet, data, k, was);
      lengthReceived := lengthReceived + n;
    }
  }

  lemma NothingTaken(b: seq<byte>, data: seq<byte>)
    requires Pieces(|data|) > 0
    ensures Partly(b, b, data, 0)
  {
  }

  lemma NotEmpty(stream: seq<Packet>, at: seq<nat>, src: byte, number: nat, encrypted: bool, data: seq<byte>)
    requires Carries(stream, at, src, number, encrypted, data)
    ensures |stream| > 0 && |at| == Pieces(|data|) > 0
  {
  }

  /** The packet is the k-th fragment of the data. */
  predicate Carrying(p: Packet, data: seq<byte>, k: nat)
    requires k < Pieces(|data|)
  {
    Offset(p) == k * MAX_DATA_LEN % 0x1_0000 && p[HEADER..] == Piece(data, k)
      && (FlagFragment(p) <==> k + 1 < Pieces(|data|))
  }

  /** Packets of other datagrams are dropped until the next one of this datagram comes. */
  method Await(stream: seq<Packet>, i0: nat, first: Packet, ghost at: seq<nat>, ghost src: byte, ghost number: nat,
               ghost encrypted: bool,
               ghost data: seq<byte>, ghost k: nat)
    returns (packet: Packet, i: nat)
    requires Carries(stream, at, src, number, encrypted, data) && k + 1 < |at| == Pieces(|data|) && i0 == at[k] + 1
    requires Src(first) == src && SequenceNumber(first) == number
    ensures i == at[k + 1] + 1 && Src(packet) == src && Carrying(packet, data, k + 1)
  {
    hide Carries, Fragment, Piece, Pieces, FlagFragment, Offset, SequenceNumber, SameDatagram, Carrying;
    i := i0;
    Facts(stream, at, src, number, encrypted, data, k, first);
    Facts(stream, at, src, number, encrypted, data, k + 1, first);
    while !SameDatagram(first, stream[i])
      invariant at[k] < i <= at[k + 1]
      decreases at[k + 1] - i
    {
      i := i + 1;
      if i < at[k + 1] { Between(stream, at, src, number, encrypted, data, k + 1, i, first); }
    }
    if i < at[k + 1] { Between(stream, at, src, number, encrypted, data, k + 1, i, first); }
    packet := stream[i];
    i := i + 1;
  }

  /** Storing a packet at the place it names: done if it was the last, or does not fit as a whole. */
  method TakePacket(buf: array<byte>, packet: Packet, ghost data: seq<byte>, ghost k: nat, ghost was: seq<byte>)
    returns (n: nat, done: bool)
    requires k < Pieces(|data|) && Carrying(packet, data, k) && Partly(buf[..], was, data, k)
    modifies buf
    ensures if done then Outcome(buf[..], was, data, k * MAX_DATA_LEN + n)
            else n == MAX_DATA_LEN && k + 1 < Pieces(|data|) && Partly(buf[..], was, data, k + 1)
  {
    hide Outcome, Partly, FlagFragment, Offset, Part, Pieces;
    PartlyRoom(buf[..], was, data, k);
    TakenNext(buf[..], was, data, k);
    PartLength(data, k);
    done := !FlagFragment(packet);
    var fragmentOffset := Offset(packet);
    n := if done then |packet| - HEADER else MAX_DATA_LEN;
    if fragmentOffset + n > buf.Length {
      n := buf.Length - fragmentOffset;
      done := true;
    }
    assert packet[HEADER..HEADER + n] == packet[HEADER..][..n];
    CopyInto(buf, fragmentOffset, packet[HEADER..HEADER + n]);
    assert buf[..] == Taking(old(buf[..]), data, k);
  }

  lemma PartLength(data: seq<byte>, k: nat)
    requires k < Pieces(|data|)
    ensures |Part(data, k)| <= MAX_DATA_LEN && (k + 1 < Pieces(|data|) ==> |Part(data, k)| == MAX_DATA_LEN)
  {
  }

  /** The buffer starts with the first n bytes of the data. */
  predicate Agree(buf: seq<byte>, data: seq<byte>, n: nat) {
    n <= |buf| && n <= |data| && buf[..n] == data[..n]
  }

  /** What is known of the k-th fragment of the datagram in the stream. */
  lemma Facts(stream: seq<Packet>, at: seq<nat>, src: byte, number: nat, encrypted: bool, data: seq<byte>, k: nat,
              first: Packet)
    requires Carries(stream, at, src, number, encrypted, data) && k < |at|
    ensures |at| == Pieces(|data|) && at[0] == 0 && at[k] < |stream|
    ensures var p := stream[at[k]];
            Src(p) == src && SequenceNumber(p) == number && FlagEncrypted(p) == encrypted && Carrying(p, data, k)
    ensures k + 1 < |at| ==> at[k] < at[k + 1]
    ensures Src(first) == src && SequenceNumber(first) == number ==> SameDatagram(first, stream[at[k]])
  {
    assert Fragment(stream[at[k]], src, number, encrypted, data, k);
  }

  /** Nothing of a rising sequence lies between two neighbours. */
  lemma NotBetween(at: seq<nat>, k: nat, i: nat)
    requires (forall j, k :: 0 <= j < k < |at| ==> at[j] < at[k]) && 0 < k < |at| && at[k - 1] < i < at[k]
    ensures i !in at && i < at[|at| - 1]
  {
    forall j | 0 <= j < |at| ensures at[j] != i {
      if j < k - 1 { assert at[j] < at[k - 1]; }
      if j > k { assert at[k] < at[j]; }
    }
    assert k < |at| - 1 ==> at[k] < at[|at| - 1];
  }

  lemma Between(stream: seq<Packet>, at: seq<nat>, src: byte, number: nat, encrypted: bool, data: seq<byte>, k: nat,
                i: nat, first: Packet)
    requires Carries(stream, at, src, number, encrypted, data) && 0 < k < |at| && at[k - 1] < i < at[k]
    ensures i < |stream| && !(Src(stream[i]) == src && SequenceNumber(stream[i]) == number)
    ensures Src(first) == src && SequenceNumber(first) == number ==> !SameDatagram(first, stream[i])
  {
    hide Fragment, Src, SequenceNumber;
    NotBetween(at, k, i);
    assert at[|at| - 1] < |stream|;
  }

  lemma PieceFacts(data: seq<byte>, k: nat)
    requires k < Pieces(|data|) && Addressable(|data|)
    ensures k * MAX_DATA_LEN < |data| && k * MAX_DATA_LEN % 0x1_0000 == k * MAX_DATA_LEN
    ensures if k + 1 < Pieces(|data|) then (k + 1) * MAX_DATA_LEN < |data| else |data| <= (k + 1) * MAX_DATA_LEN
    ensures |Piece(data, k)| == if k + 1 < Pieces(|data|) then MAX_DATA_LEN else |data| - k * MAX_DATA_LEN
    ensures Piece(data, k) == data[k * MAX_DATA_LEN..k * MAX_DATA_LEN + |Piece(data, k)|]
  {
  }

  /** The 16-bit offset field is right in every fragment exactly if the last one's place can be written in 16 bits. */
  lemma AddressableExactly(n: nat)
    requires n > 0
    ensures Addressable(n) <==> forall k :: 0 <= k < Pieces(n) ==> k * MAX_DATA_LEN % 0x1_0000 == k * MAX_DATA_LEN
  {
    var last := Pieces(n) - 1;
    if !Addressable(n) {
      assert last * MAX_DATA_LEN % 0x1_0000 != last * MAX_DATA_LEN;
    }
  }

  /** So the parts of all data of some length are sent as they are exactly if that length is addressable. */
  lemma SentAsIs(n: nat)
    requires n > 0
    ensures Addressable(n) <==> forall data: seq<byte>, k: nat :: |data| == n && k < Pieces(n) ==>
      Piece(data, k) == Part(data, k)
  {
    if Addressable(n) {
      forall data: seq<byte>, k: nat | |data| == n && k < Pieces(n) ensures Piece(data, k) == Part(data, k) {
        PieceFacts(data, k);
      }
    } else {
      var k: nat := Pieces(n) - 1;
      var place := k * MAX_DATA_LEN;
      var data := seq(n, i => if i == place then 1 else 0);
      assert Part(data, k)[0] == 1 && Piece(data, k)[0] == 0;
    }
  }

  /** The largest addressable datagram has 65702 bytes. */
  lemma AddressableLimit(n: nat)
    ensures Addressable(n) <==> 1 <= n <= 65702
  {
  }

  /** Two datagrams of a node carry the same number only if a multiple of 65536 were sent from one to the other. */
  lemma NumbersApart(start: nat, i: nat, j: nat)
    requires i < j < i + 0x1_0000
    ensures (start + i) % 0x1_0000 != (start + j) % 0x1_0000
  {
    var a, b := start + i, start + j;
    assert a == 0x1_0000 * (a / 0x1_0000) + a % 0x1_0000;
    assert b == 0x1_0000 * (b / 0x1_0000) + b % 0x1_0000;
  }

  // ---- being read by a master ----------------------------------------------------------------------

  /** A read packet always has full length; behind its piece of the data is whatever an earlier one left. */
  predicate ReadFragment(p: Packet, src: byte, number: nat, data: seq<byte>, k: nat)
    requires k < Pieces(|data|)
  {
    && |p| == 255 && Src(p) == src && SequenceNumber(p) == number && p[0] as int / 2 == 8
    && (FlagFragment(p) <==> k + 1 < Pieces(|data|))
    && Offset(p) == k * MAX_DATA_LEN % 0x1_0000
    && HEADER + |Piece(data, k)| <= |p| && p[HEADER..HEADER + |Piece(data, k)|] == Piece(data, k)
  }

  /**
   * What asking for the next piece comes to: it is set up, all has been read and somebody is told, or a null pointer is
   * called; new data also need a bus that listens.
   */
  datatype Reading = SetUp | Told | NullCall | Deaf

  /** The data offered to a reading master, piece by piece. */
  class SlaveRead {
    /** Reading and sending share address and sequence numbers. */
    const node: Node
    const packet: array<byte>
    var data: seq<byte>
    var remaining: nat
    /** The number of the datagram that is read. */
    var number: nat
    /** Whether somebody wants to be told when all has been read. */
    var callback: bool

    ghost predicate Valid()
      reads this, packet
    {
      && packet.Length == PORT_I2C_MAX_LEN && number < 0x1_0000
      && packet[1] == node.address && packet[2] as int * 0x100 + packet[3] as int == number
      && (packet[0] as int / 2 == 8 || (packet[0] as int / 2 == 0 && data == []))
      && remaining <= |data| && (remaining == 0 || (|data| - remaining) % MAX_DATA_LEN == 0)
    }

    /** How many pieces have been read. */
    ghost function Turn(): nat
      requires remaining <= |data|
      reads this
    {
      if remaining == 0 then Pieces(|data|) else (|data| - remaining) / MAX_DATA_LEN
    }

    constructor (n: Node)
      ensures Valid() && node == n && data == [] && remaining == 0 && number == 0 && !callback && fresh(packet)
    {
      node, data, remaining, number, callback := n, [], 0, 0, false;
      packet := new byte[PORT_I2C_MAX_LEN](_ => 0);
      new;
      packet[1] := node.address;
      assert packet[0] == 0;
    }

    /**
     * signbus_io_set_read_buffer: new data under the node's next number; the first piece is set up at once. Nothing
     * happens if the bus does not listen.
     */
    method SetReadBuffer(d: seq<byte>) returns (out: Packet, what: Reading)
      requires Valid() && node.Valid()
      modifies this, packet, node
      ensures Valid() && node.Valid() && callback == old(callback)
      ensures what == Deaf ==>
        data == old(data) && remaining == old(remaining) && number == old(number) && packet[..] == old(packet[..])
          && node.sequenceNumber == old(node.sequenceNumber)
      ensures what != Deaf ==>
        data == d && number == node.sequenceNumber == (old(node.sequenceNumber) + 1) % 0x1_0000
      ensures what != Deaf ==> what == if d != [] then SetUp else if callback then Told else NullCall
      ensures what != Deaf && d != [] ==>
        Turn() == 1 && ReadFragment(out, node.address, number, d, 0) && TotalLength(out) == OnBus(|d|) % 0x1_0000
    {
      var listening: bool := *;  // port_signpost_i2c_slave_listen
      if !listening { return packet[..], Deaf; }
      node.NextNumber();
      number := node.sequenceNumber;
      data, remaining := d, |d|;
      SetMetadata();
      hide ReadFragment, Piece, Pieces;
      out, what := Iterate();
    }

    /** The metadata of the packets to be read. */
    method SetMetadata()
      requires packet.Length == PORT_I2C_MAX_LEN && number < 0x1_0000 && remaining == |data|
      requires packet[0] as int / 2 == 8 || packet[0] as int / 2 == 0
      modifies packet
      ensures Valid() && packet[4] as int * 0x100 + packet[5] as int == OnBus(|data|) % 0x1_0000
    {
      hide OnBus;
      var numPackets := if |data| % MAX_DATA_LEN != 0 then |data| / MAX_DATA_LEN + 1 else |data| / MAX_DATA_LEN;
      LengthField(|data|, numPackets);
      packet[0] := packet[0] as int % 0x10 + 0x10;
      SetHeader(packet, node.address, number, numPackets % 0x1_0000 * HEADER + |data|);
    }

    /**
     * signbus_iterate_slave_read: the next piece, in order; when all have been read the one who asked for it is told,
     * or else the pieces start over. With neither data nor anybody to tell, and only then, it calls a null pointer.
     */
    method Iterate() returns (out: Packet, what: Reading)
      requires Valid()
      modifies `remaining, packet
      ensures Valid()
      ensures what == if old(remaining) > 0 || (data != [] && !callback) then SetUp
                      else if callback then Told else NullCall
      ensures what != SetUp ==> remaining == 0
      ensures what == SetUp ==>
        var k := if old(remaining) == 0 then 0 else old(Turn());
        k < Pieces(|data|) && ReadFragment(out, node.address, number, data, k) && Turn() == k + 1
      ensures what == SetUp ==> out[4] == old(packet[4]) && out[5] == old(packet[5])
    {
      hide ReadFragment, Fragment, Piece;
      out, what := packet[..], SetUp;
      if remaining == 0 {
        if callback || data == [] { return out, if callback then Told else NullCall; }
        remaining := |data|;
      }
      ghost var k := (|data| - remaining) / MAX_DATA_LEN;
      Numbers(|data|, remaining, k);
      var n := SetUpPiece(k);
      remaining := remaining - n;
      out := packet[..];
    }

    /** The packet for the next piece. */
    method SetUpPiece(ghost k: nat) returns (n: nat)
      requires Valid() && remaining > 0 && |data| - remaining == k * MAX_DATA_LEN && k < Pieces(|data|)
      modifies packet
      ensures Valid() && n == (if remaining > MAX_DATA_LEN then MAX_DATA_LEN else remaining)
      ensures ReadFragment(packet[..], node.address, number, data, k)
      ensures packet[4] == old(packet[4]) && packet[5] == old(packet[5])
    {
      hide Piece, Part, Pieces, ReadFragment, WithFragment;
      Numbers(|data|, remaining, k);
      Due(data, remaining, k);
      var isFragment := remaining > MAX_DATA_LEN;
      var start := |data| - remaining;
      var offset := start % 0x1_0000;
      packet[0] := WithFragment(packet[0], isFragment);
      SetBe16(packet, 6, offset);
      n := if isFragment then MAX_DATA_LEN else remaining;
      PutPart(packet, data[offset..offset + n]);
      PieceSetUp(k, n, isFragment);
    }

    lemma PieceSetUp(k: nat, n: nat, isFragment: bool)
      requires Valid() && k < Pieces(|data|) && HEADER + n <= packet.Length
      requires packet[HEADER..HEADER + n] == Piece(data, k)
      requires packet[0] as int % 2 == (if isFragment then 1 else 0) && packet[0] as int / 2 == 8
      requires (isFragment <==> k + 1 < Pieces(|data|))
      requires packet[6] as int * 0x100 + packet[7] as int == k * MAX_DATA_LEN % 0x1_0000
      ensures ReadFragment(packet[..], node.address, number, data, k)
    {
      hide Pieces, Piece;
    }
  }
}
