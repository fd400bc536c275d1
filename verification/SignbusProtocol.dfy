/**
 * The protocol and application layers of signbus: a message with its types is encrypted if there is a key, a digest is
 * put behind it, and the network layer below carries it. Cipher and digest are left open.
 */
module SignbusProtocol {
  import opened Bytes
  import opened SignbusIo

  const MAX_IV_LENGTH: nat := 16
  const SHA256_LEN: nat := 32

  datatype Key = NoKey | SharedKey(secret: seq<byte>)

  /** What a receiver answers; Overrun stands for reading past the end of the buffer. */
  datatype Result<T> = Received(value: T) | Enomem | Esize | Overrun

  /** AES in counter mode and SHA-256, plain or keyed, as far as the layers depend on them. */
  datatype Crypto = Crypto(
    encrypt: (seq<byte>, seq<byte>, seq<byte>) -> seq<byte>,
    decrypt: (seq<byte>, seq<byte>, seq<byte>) -> seq<byte>,
    digest: (Key, seq<byte>) -> seq<byte>)
  {
    /** Ciphertext is as long as cleartext, decrypting undoes encrypting, and a digest has 32 bytes. */
    ghost predicate Lawful() {
      && (forall k, iv, m :: |encrypt(k, iv, m)| == |m|)
      && (forall k, iv, m :: decrypt(k, iv, encrypt(k, iv, m)) == m)
      && (forall k, m :: |digest(k, m)| == SHA256_LEN)
    }
  }

  /** What the protocol layer makes of a cleartext: iv and ciphertext, or the cleartext itself, and a digest of it. */
  ghost function Wrapped(c: Crypto, key: Key, iv: seq<byte>, clear: seq<byte>): seq<byte> {
    var body := match key case NoKey => clear case SharedKey(k) => iv + c.encrypt(k, iv, clear);
    body + c.digest(key, body)
  }

  // ---- sending -------------------------------------------------------------------------------------

  /** Room for the ciphertext: whole blocks and one more. */
  function EncryptedLen(n: nat): nat {
    16 * (n / 16 + if n % 16 != 0 then 1 else 0) + 16
  }

  function ProtocolLen(n: nat): nat { MAX_IV_LENGTH + EncryptedLen(n) + SHA256_LEN }

  lemma RoomForAll(n: nat, m: nat)
    requires n <= m
    ensures n + MAX_IV_LENGTH + SHA256_LEN <= ProtocolLen(m)
    ensures EncryptedLen(m) % 16 == 0 && m + 16 <= EncryptedLen(m) < m + 32
  {
  }

  /**
   * signbus_protocol_send, with the iv drawn by the caller: the bytes handed to the network layer, put together in one
   * buffer.
   */
  method ProtocolSend(c: Crypto, node: Node, key: Key, iv: seq<byte>, clear: seq<byte>)
    returns (ok: bool, out: seq<Packet>, ghost sent: seq<byte>)
    requires c.Lawful() && node.Valid() && |iv| == MAX_IV_LENGTH
    modifies node
    ensures node.Valid() && node.sequenceNumber == (old(node.sequenceNumber) + 1) % 0x1_0000
    ensures sent == match key
                    case NoKey => clear + c.digest(key, clear)
                    case SharedKey(k) =>
                      iv + c.encrypt(k, iv, clear) + c.digest(key, iv + c.encrypt(k, iv, clear))
    ensures sent == Wrapped(c, key, iv, clear) && if ok then |out| == Pieces(|sent|) else |out| < Pieces(|sent|)
    ensures forall k :: 0 <= k < |out| ==> Outgoing(out[k], node.address, node.sequenceNumber, key.SharedKey?, sent, k)
  {
    hide Outgoing, Pieces;
    RoomForAll(|clear|, |clear|);
    var buf := new byte[ProtocolLen(|clear|)](_ => 0);
    var used := 0;
    match key {
      case SharedKey(k) =>
        CopyInto(buf, 0, iv);
        used := used + MAX_IV_LENGTH;
        var e := c.encrypt(k, iv, clear);
        CopyInto(buf, MAX_IV_LENGTH, e);
        used := used + |e|;
        assert buf[..used] == iv + e;
      case NoKey =>
        CopyInto(buf, 0, clear);
        used := used + |clear|;
        assert buf[..used] == clear;
    }
    ghost var body := buf[..used];
    var hmac := c.digest(key, buf[..used]);
    CopyInto(buf, used, hmac);
    used := used + SHA256_LEN;
    assert buf[..used] == body + hmac;
    sent := buf[..used];
    ok, out := node.Send(key.SharedKey?, buf[..used]);
  }

  /** signbus_app_send. */
  method AppSend(c: Crypto, node: Node, key: Key, iv: seq<byte>, frame: byte, api: byte, msgType: byte,
                 message: seq<byte>)
    returns (ok: bool, out: seq<Packet>, ghost sent: seq<byte>)
    requires c.Lawful() && node.Valid() && |iv| == MAX_IV_LENGTH
    modifies node
    ensures node.Valid() && node.sequenceNumber == (old(node.sequenceNumber) + 1) % 0x1_0000
    ensures sent == Wrapped(c, key, iv, [frame, api, msgType] + message)
    ensures if ok then |out| == Pieces(|sent|) else |out| < Pieces(|sent|)
    ensures forall k :: 0 <= k < |out| ==> Outgoing(out[k], node.address, node.sequenceNumber, key.SharedKey?, sent, k)
  {
    hide Outgoing, Pieces, Wrapped;
    var payload := new byte[3 + |message|](_ => 0);
    payload[0], payload[1], payload[2] := frame, api, msgType;
    CopyInto(payload, 3, message);
    assert payload[..] == [frame, api, msgType] + message;
    ok, out, sent := ProtocolSend(c, node, key, iv, payload[..]);
  }

  // ---- receiving -----------------------------------------------------------------------------------

  /** Lengths are 32-bit unsigned numbers. */
  function Size(x: int): nat { x % 0x1_0000_0000 }

  /** The least sensible length, as C computes it: the sum in front of the ? is its condition. */
  function SaneLength(keyed: bool): nat {
    if SHA256_LEN + (if keyed then 0 else 1) != 0 then 0 else MAX_IV_LENGTH
  }

  /** How many bytes the digest is taken of. */
  function DigestedLen(n: nat): nat { Size(n - SHA256_LEN) }

  /** How many bytes behind the iv are decrypted. */
  function CipherLen(n: nat): nat { Size(n - MAX_IV_LENGTH - SHA256_LEN) }

  /** The room a receiver needs besides the cleartext. */
  function Overhead(keyed: bool): nat { SHA256_LEN + if keyed then MAX_IV_LENGTH else 0 }

  /** The check for a sensible length rejects nothing. */
  lemma CheckRejectsNothing(n: nat, keyed: bool)
    ensures !(n < SaneLength(keyed))
  {
  }

  /**
   * The lengths computed from a buffer's length stay inside it exactly if there is a digest, and an iv if there is a
   * key.
   */
  lemma LengthsInside(n: nat, keyed: bool)
    requires n < 0x1_0000_0000
    ensures n >= Overhead(keyed) <==> DigestedLen(n) + SHA256_LEN <= n && (keyed ==> MAX_IV_LENGTH + CipherLen(n) <= n)
  {
  }

  /**
   * protocol_encrypted_buffer_received. Its check for a sensible length never rejects: a buffer without room for a
   * digest makes it read past the end, and so does one with a digest that fits but no room for the iv, if the caller's
   * buffer seems large enough.
   */
  method BufferReceived(c: Crypto, key: Key, buf: seq<byte>, outputLen: nat) returns (r: Result<seq<byte>>)
    requires c.Lawful() && |buf| < 0x1_0000_0000 && outputLen < 0x1_0000_0000
    ensures r.Overrun? <==>
      |buf| < SHA256_LEN || (|buf| < Overhead(key.SharedKey?) && Sealed(c, key, buf) && outputLen >= CipherLen(|buf|))
    ensures |buf| >= SHA256_LEN ==> (r.Enomem? <==> !Sealed(c, key, buf))
    ensures |buf| >= Overhead(key.SharedKey?) && r.Esize? ==> outputLen + Overhead(key.SharedKey?) < |buf|
    ensures |buf| >= Overhead(key.SharedKey?) && Sealed(c, key, buf) ==>
              r == if outputLen + Overhead(key.SharedKey?) < |buf| then Esize
                   else match key
                        case NoKey => Received(buf[..|buf| - 32])
                        case SharedKey(k) => Received(c.decrypt(k, buf[..16], buf[16..|buf| - 32]))
    ensures forall iv, clear :: |iv| == MAX_IV_LENGTH && buf == Wrapped(c, key, iv, clear) ==>
              r == if |clear| <= outputLen then Received(clear) else Esize
  {
    hide Crypto.Lawful, Wrapped, Sealed, Size, DigestedLen, CipherLen, SaneLength;
    CheckRejectsNothing(|buf|, key.SharedKey?);
    if |buf| < SaneLength(key.SharedKey?) { return Esize; }
    Lengths(|buf|);
    SealedDef(c, key, buf);
    var n := DigestedLen(|buf|);
    WrappedRoom(c, key, buf);
    if n + SHA256_LEN > |buf| { return Overrun; }
    if c.digest(key, buf[..n]) != buf[n..] {
      Authentic(c, key, buf);
      return Enomem;
    }
    Opens(c, key, buf);
    match key {
      case SharedKey(k) =>
        var m := CipherLen(|buf|);
        if outputLen < m { return Esize; }
        if MAX_IV_LENGTH + m > |buf| { return Overrun; }
        r := Received(c.decrypt(k, buf[..MAX_IV_LENGTH], buf[MAX_IV_LENGTH..MAX_IV_LENGTH + m]));
      case NoKey =>
        if outputLen < n { return Esize; }
        r := Received(buf[..n]);
    }
  }

  lemma Lengths(n: nat)
    requires n < 0x1_0000_0000
    ensures if n >= SHA256_LEN then DigestedLen(n) == n - SHA256_LEN else DigestedLen(n) + SHA256_LEN > n
    ensures if n >= Overhead(true) then CipherLen(n) == n - Overhead(true) else MAX_IV_LENGTH + CipherLen(n) > n
    ensures n < 48 ==> CipherLen(n) == 0x1_0000_0000 + n - 48
  {
  }

  lemma SealedDef(c: Crypto, key: Key, buf: seq<byte>)
    ensures |buf| >= SHA256_LEN ==>
      (Sealed(c, key, buf) <==> c.digest(key, buf[..|buf| - SHA256_LEN]) == buf[|buf| - SHA256_LEN..])
  {
  }

  /** The buffer ends in the digest of what comes before. */
  predicate Sealed(c: Crypto, key: Key, buf: seq<byte>)
    requires |buf| >= SHA256_LEN
  {
    c.digest(key, buf[..|buf| - SHA256_LEN]) == buf[|buf| - SHA256_LEN..]
  }

  lemma WrappedRoom(c: Crypto, key: Key, buf: seq<byte>)
    requires c.Lawful()
    ensures forall iv, clear :: |iv| == MAX_IV_LENGTH && buf == Wrapped(c, key, iv, clear) ==>
      |buf| == |clear| + Overhead(key.SharedKey?)
  {
  }

  /** A wrapped buffer has its own digest. */
  lemma Authentic(c: Crypto, key: Key, buf: seq<byte>)
    requires c.Lawful() && |buf| >= SHA256_LEN
    ensures forall iv, clear :: buf == Wrapped(c, key, iv, clear) ==>
      c.digest(key, buf[..|buf| - SHA256_LEN]) == buf[|buf| - SHA256_LEN..]
  {
    forall iv, clear | buf == Wrapped(c, key, iv, clear)
      ensures c.digest(key, buf[..|buf| - SHA256_LEN]) == buf[|buf| - SHA256_LEN..]
    {
      var body := match key case NoKey => clear case SharedKey(k) => iv + c.encrypt(k, iv, clear);
      assert buf[..|buf| - SHA256_LEN] == body && buf[|buf| - SHA256_LEN..] == c.digest(key, body);
    }
  }

  /** In front of the digest is the cleartext, or what decrypts to it. */
  predicate Contains(c: Crypto, key: Key, buf: seq<byte>, clear: seq<byte>)
    requires |buf| >= SHA256_LEN
  {
    var n := |buf| - SHA256_LEN;
    match key
    case NoKey => buf[..n] == clear
    case SharedKey(k) =>
      n - MAX_IV_LENGTH == |clear| && c.decrypt(k, buf[..MAX_IV_LENGTH], buf[MAX_IV_LENGTH..n]) == clear
  }

  /** What is in it. */
  lemma Opens(c: Crypto, key: Key, buf: seq<byte>)
    requires c.Lawful() && |buf| >= SHA256_LEN
    ensures forall iv, clear :: |iv| == MAX_IV_LENGTH && buf == Wrapped(c, key, iv, clear) ==>
      Contains(c, key, buf, clear)
  {
    forall iv, clear | |iv| == MAX_IV_LENGTH && buf == Wrapped(c, key, iv, clear)
      ensures Contains(c, key, buf, clear)
    {
      var body := match key case NoKey => clear case SharedKey(k) => iv + c.encrypt(k, iv, clear);
      assert buf[..|buf| - SHA256_LEN] == body;
      match key {
        case NoKey =>
        case SharedKey(k) =>
          assert buf[..MAX_IV_LENGTH] == iv && buf[MAX_IV_LENGTH..|buf| - SHA256_LEN] == c.encrypt(k, iv, clear);
      }
    }
  }

  /**
   * signbus_protocol_recv over the packets as they arrive: fed the fragments of a wrapped cleartext, mixed with other
   * packets, it returns sender and cleartext, if the sender's key is under the sender's address and there is room.
   */
  method ProtocolRecv(c: Crypto, stream: seq<Packet>, keyOf: byte -> Key, outputLen: nat,
                      ghost at: seq<nat>, ghost src: byte, ghost number: nat, ghost key: Key, ghost iv: seq<byte>,
                      ghost clear: seq<byte>)
    returns (r: Result<seq<byte>>, from: byte)
    requires c.Lawful() && |iv| == MAX_IV_LENGTH && (key.SharedKey? ==> keyOf(src) == key)
    requires var sent := Wrapped(c, key, iv, clear);
             Carries(stream, at, src, number, key.SharedKey?, sent) && Addressable(|sent|)
    requires |clear| <= outputLen < 0x1_0000_0000
    ensures r == Received(clear) && from == src
  {
    hide Carries, Addressable, ProtocolLen, Wrapped;
    ghost var sent := Wrapped(c, key, iv, clear);
    WrappedLen(c, key, iv, clear);
    AddressableLimit(|sent|);
    RoomForAll(|clear|, outputLen);
    var buf := new byte[ProtocolLen(outputLen)];
    var n, encrypted;
    n, encrypted, from := GetMessage(stream, buf, at, src, number, key.SharedKey?, sent);
    assert buf[..n] == sent;
    var k := if encrypted then keyOf(from) else NoKey;
    assert k == key;
    r := BufferReceived(c, k, buf[..n], outputLen);
  }

  /**
   * What the application gets: the answer of the call, the sender, the types and the length of the message behind them.
   */
  datatype Parsed = Parsed(rc: int, from: byte, frame: byte, api: byte, msgType: byte, length: nat)

  /** A 32-bit number as a signed one. */
  function AsInt(x: nat): int { if x < 0x8000_0000 then x else x - 0x1_0000_0000 }

  /**
   * app_parse, for n bytes received at the start of the buffer. The types are read without a look at n, so they are
   * past the end of a buffer of less than three bytes; the length is right, and the answer no error, exactly if at
   * least three bytes were received.
   */
  method Parse(from: byte, recv: array<byte>, n: nat) returns (r: Result<Parsed>)
    requires n <= recv.Length && n < 0x8000_0000
    ensures r == if recv.Length < 3 then Overrun
      else Received(Parsed(n - 3, from, recv[0], recv[1], recv[2], if n >= 3 then n - 3 else 0x1_0000_0000 + n - 3))
  {
    if recv.Length < 3 { return Overrun; }
    var length := Size(n - 3);
    return Received(Parsed(AsInt(length), from, recv[0], recv[1], recv[2], length));
  }

  /** The types and the message of a cleartext have been delivered. */
  predicate Delivered(p: Parsed, from: byte, recv: seq<byte>, clear: seq<byte>) {
    && p.from == from && p.rc == p.length == |clear| - 3 && 3 + p.length <= |recv|
    && [p.frame, p.api, p.msgType] + recv[3..3 + p.length] == clear
  }

  /**
   * signbus_app_recv over the packets as they arrive. Fed the fragments of a wrapped cleartext, mixed with other
   * packets, with the sender's key under the sender's address and a buffer of three bytes or more that has room for the
   * cleartext, it delivers sender, types and message exactly if the cleartext has the three types, as all that AppSend
   * has sent do; a shorter one, which a peer may send as well, is answered with -3 to -1, a length that has wrapped
   * around, and types that the buffer held before.
   */
  method AppRecv(c: Crypto, stream: seq<Packet>, keyOf: byte -> Key, recv: array<byte>,
                 ghost at: seq<nat>, ghost src: byte, ghost number: nat, ghost key: Key, ghost iv: seq<byte>,
                 ghost clear: seq<byte>)
    returns (r: Result<Parsed>)
    requires c.Lawful() && |iv| == MAX_IV_LENGTH && (key.SharedKey? ==> keyOf(src) == key)
    requires var sent := Wrapped(c, key, iv, clear);
             Carries(stream, at, src, number, key.SharedKey?, sent) && Addressable(|sent|)
    requires |clear| <= recv.Length < 0x1_0000_0000
    modifies recv
    ensures r.Overrun? <==> recv.Length < 3
    ensures r.Overrun? || r.Received?
    ensures recv[..] == clear + old(recv[|clear|..])
    ensures r.Received? ==> (Delivered(r.value, src, recv[..], clear) <==> |clear| >= 3)
    ensures r.Received? && |clear| >= 3 ==>
      r.value == Parsed(|clear| - 3, src, clear[0], clear[1], clear[2], |clear| - 3)
    ensures r.Received? && |clear| < 3 ==>
      r.value.rc == |clear| - 3 < 0 && r.value.length > recv.Length - 3 && r.value.msgType == old(recv[2])
  {
    hide Carries, Addressable, Wrapped, Crypto.Lawful;
    var res, from := ProtocolRecv(c, stream, keyOf, recv.Length, at, src, number, key, iv, clear);
    ProtocolRoom(c, key, iv, clear);
    CopyInto(recv, 0, res.value);
    r := Parse(from, recv, |res.value|);
  }

  lemma ProtocolRoom(c: Crypto, key: Key, iv: seq<byte>, clear: seq<byte>)
    requires c.Lawful() && |iv| == MAX_IV_LENGTH && Addressable(|Wrapped(c, key, iv, clear)|)
    ensures |clear| < 0x8000_0000
  {
    hide Wrapped, Addressable;
    WrappedLen(c, key, iv, clear);
    AddressableLimit(|Wrapped(c, key, iv, clear)|);
  }

  lemma WrappedLen(c: Crypto, key: Key, iv: seq<byte>, clear: seq<byte>)
    requires c.Lawful() && |iv| == MAX_IV_LENGTH
    ensures |Wrapped(c, key, iv, clear)| == |clear| + Overhead(key.SharedKey?)
  {
  }
}
