/**
 * The SLIP framing (RFC 1055) of the serial link to the radio: the encoder, which sends 40 END bytes before every
 * message, and the byte-by-byte decoder with its bounded buffer.
 */
module ComSlip {
  import opened Bytes

  const END: byte := 0xC0
  const ESC: byte := 0xDB
  const ESC_END: byte := 0xDC
  const ESC_ESC: byte := 0xDD
  const WAKEUP: nat := 40

  // ---- sending -------------------------------------------------------------------------------------

  /** A message with END and ESC replaced. */
  function Escaped(msg: seq<byte>): seq<byte> {
    if msg == [] then []
    else Escaped(msg[..|msg| - 1]) + EscapedByte(msg[|msg| - 1])
  }

  function EscapedByte(b: byte): seq<byte> {
    if b == END then [ESC, ESC_END] else if b == ESC then [ESC, ESC_ESC] else [b]
  }

  /** END and ESC go out as two bytes each, so that END stands between messages only. */
  lemma {:induction false} EscapedBytes(msg: seq<byte>, b: byte)
    ensures EscapedByte(b) == if b == 0xC0 then [0xDB, 0xDC] else if b == 0xDB then [0xDB, 0xDD] else [b]
    ensures Escaped(msg + [b]) == Escaped(msg) + EscapedByte(b)
    ensures 0xC0 !in Escaped(msg)
  {
    assert (msg + [b])[..|msg|] == msg;
    if msg == [] {
    } else {
      EscapedBytes(msg[..|msg| - 1], msg[|msg| - 1]);
    }
  }

  function Ends(n: nat): (s: seq<byte>)
    ensures |s| == n && forall i :: 0 <= i < n ==> s[i] == END
  {
    seq(n, _ => END)
  }

  /** What goes over the line for a message. */
  function Encode(msg: seq<byte>): seq<byte> {
    Ends(WAKEUP) + Escaped(msg) + [END]
  }

  /** ComSlip_SendMessage. */
  method SendMessage(msg: seq<byte>) returns (line: seq<byte>)
    ensures line == Encode(msg)
    ensures |line| > 40 && line[|line| - 1] == 0xC0 && forall i :: 0 <= i < 40 ==> line[i] == 0xC0
    ensures line[40..|line| - 1] == Escaped(msg)
  {
    line := [];
    var countWakeupChars := WAKEUP;
    while countWakeupChars > 0
      invariant 0 <= countWakeupChars <= WAKEUP && line == Ends(WAKEUP - countWakeupChars)
    {
      line := line + [END];
      countWakeupChars := countWakeupChars - 1;
    }
    assert msg[..0] == [] && line == Ends(WAKEUP) + [];
    for i := 0 to |msg|
      invariant line == Ends(WAKEUP) + Escaped(msg[..i])
    {
      assert msg[..i + 1][..i] == msg[..i];
      if msg[i] == END {
        line := line + [ESC];
        line := line + [ESC_END];
      } else if msg[i] == ESC {
        line := line + [ESC];
        line := line + [ESC_ESC];
      } else {
        line := line + [msg[i]];
      }
    }
    assert msg[..|msg|] == msg;
    line := line + [END];
  }

  // ---- the decoder as a function -------------------------------------------------------------------

  datatype RxState = Idle | Start | InFrame | Escape

  /** State, the bytes of the frame so far, and the frames delivered. */
  datatype Decoder = Decoder(state: RxState, held: seq<byte>, frames: seq<seq<byte>>)

  /** A byte more, if there is room. */
  function Store(d: Decoder, b: byte, size: nat): Decoder {
    if |d.held| < size then d.(held := d.held + [b]) else d
  }

  function Step(d: Decoder, b: byte, size: nat): Decoder {
    match d.state
    case Idle => d
    case Start => if b == END then d.(state := InFrame, held := []) else d
    case InFrame =>
      if b == END then
        if d.held != [] then Decoder(Start, [], d.frames + [d.held]) else d
      else if b == ESC then d.(state := Escape)
      else Store(d, b, size)
    case Escape =>
      if b == ESC_END then Store(d, END, size).(state := InFrame)
      else if b == ESC_ESC then Store(d, ESC, size).(state := InFrame)
      else d.(state := Start)
  }

  /**
   * Byte by byte: nothing happens while there is no buffer; a frame begins at an END and ends at the next unless it is
   * empty; after it another END has to come; a wrong escape sequence drops the frame; what has no room is dropped.
   */
  lemma StepMeans(d: Decoder, b: byte, size: nat)
    ensures d.state == Idle ==> Step(d, b, size) == d
    ensures d.state == Start ==> Step(d, b, size) == if b == 0xC0 then Decoder(InFrame, [], d.frames) else d
    ensures d.state == InFrame && b == 0xC0 ==>
      Step(d, b, size) == if d.held == [] then d else Decoder(Start, [], d.frames + [d.held])
    ensures d.state == InFrame && b == 0xDB ==> Step(d, b, size) == Decoder(Escape, d.held, d.frames)
    ensures d.state == Escape && b != 0xDC && b != 0xDD ==> Step(d, b, size) == Decoder(Start, d.held, d.frames)
    ensures (d.state == InFrame && b != 0xC0 && b != 0xDB) || (d.state == Escape && (b == 0xDC || b == 0xDD)) ==>
              var c: byte := if d.state == InFrame then b else if b == 0xDC then 0xC0 else 0xDB;
              Step(d, b, size) == Decoder(InFrame, if |d.held| < size then d.held + [c] else d.held, d.frames)
  {
  }

  /** The decoder after a stretch of bytes. */
  function Run(d: Decoder, s: seq<byte>, size: nat): Decoder {
    if s == [] then d else Step(Run(d, s[..|s| - 1], size), s[|s| - 1], size)
  }

  lemma {:induction false} RunSplit(d: Decoder, s: seq<byte>, t: seq<byte>, size: nat)
    ensures Run(d, s + t, size) == Run(Run(d, s, size), t, size)
  {
    if t == [] {
      assert s + t == s;
    } else {
      var last := |t| - 1;
      assert (s + t)[..|s + t| - 1] == s + t[..last];
      RunSplit(d, s, t[..last], size);
    }
  }

  // ---- what the decoder makes of what the encoder sends --------------------------------------------

  /** Two END bytes or more lead from any working state into a fresh frame; what was held may come out as one frame. */
  lemma {:induction false} Resynchronises(d: Decoder, n: nat, size: nat)
    requires d.state != Idle && n >= 2
    ensures Run(d, Ends(n), size) == Decoder(InFrame, [], d.frames + Leftover(d))
  {
    var s := Ends(n);
    assert s[..n - 1] == Ends(n - 1);
    if n == 2 {
      assert Ends(1)[..0] == [];
      assert Run(d, Ends(1), size) == Step(Run(d, [], size), END, size);
    } else {
      Resynchronises(d, n - 1, size);
    }
  }

  /** The unfinished frame that an END byte in the middle of it delivers. */
  function Leftover(d: Decoder): (fs: seq<seq<byte>>)
    ensures |fs| <= 1
  {
    if d.state == InFrame && d.held != [] then [d.held] else []
  }

  /** As much of a message as the buffer takes. */
  function Cut(msg: seq<byte>, size: nat): seq<byte> {
    if |msg| <= size then msg else msg[..size]
  }

  /** As much of a message as a buffer has room for. */
  lemma CutMeans(msg: seq<byte>, size: nat)
    ensures Cut(msg, size) <= msg && |Cut(msg, size)| == if |msg| < size then |msg| else size
  {
  }

  lemma {:induction false} Takes(d: Decoder, msg: seq<byte>, size: nat)
    requires d.state == InFrame && d.held == []
    ensures Run(d, Escaped(msg), size) == Decoder(InFrame, Cut(msg, size), d.frames)
  {
    hide Run, Escaped, EscapedByte, Store, Cut;
    if msg == [] {
      TakesNothing(d, size);
    } else {
      var init, b := msg[..|msg| - 1], msg[|msg| - 1];
      EscapedMore(msg);
      Takes(d, init, size);
      RunSplit(d, Escaped(init), EscapedByte(b), size);
      TakesByte(Decoder(InFrame, Cut(init, size), d.frames), b, size);
      CutMore(init, b, size);
      StoreCut(d, Cut(init, size), b, size);
      assert init + [b] == msg;
    }
  }

  lemma TakesNothing(d: Decoder, size: nat)
    requires d.state == InFrame && d.held == []
    ensures Run(d, Escaped([]), size) == Decoder(InFrame, Cut([], size), d.frames)
  {
  }

  lemma EscapedMore(msg: seq<byte>)
    requires msg != []
    ensures Escaped(msg) == Escaped(msg[..|msg| - 1]) + EscapedByte(msg[|msg| - 1])
  {
  }

  lemma StoreCut(d: Decoder, held: seq<byte>, b: byte, size: nat)
    ensures Store(Decoder(InFrame, held, d.frames), b, size)
            == Decoder(InFrame, if |held| < size then held + [b] else held, d.frames)
  {
  }

  lemma CutMore(init: seq<byte>, b: byte, size: nat)
    ensures Cut(init + [b], size) == if |Cut(init, size)| < size then Cut(init, size) + [b] else Cut(init, size)
  {
  }

  lemma TakesByte(d: Decoder, b: byte, size: nat)
    requires d.state == InFrame
    ensures Run(d, EscapedByte(b), size) == Store(d, b, size)
  {
    var e := EscapedByte(b);
    assert e[..0] == [];
    if |e| == 2 {
      assert e[..1][..0] == [];
      assert Run(d, e[..1], size) == Step(d, ESC, size);
    }
  }

  /**
   * One message: after at most one leftover frame exactly its own, as far as the buffer goes; an empty one delivers
   * nothing.
   */
  lemma Decodes(d: Decoder, msg: seq<byte>, size: nat)
    requires d.state != Idle
    ensures var e := Run(d, Encode(msg), size);
            && e.frames == d.frames + Leftover(d) + Frames([msg], size)
            && e.state != Idle && Leftover(e) == []
  {
    var a, b := Ends(WAKEUP), Escaped(msg);
    RunSplit(d, a + b, [END], size);
    RunSplit(d, a, b, size);
    Resynchronises(d, WAKEUP, size);
    var f := Decoder(InFrame, [], d.frames + Leftover(d));
    Takes(f, msg, size);
    var g := Decoder(InFrame, Cut(msg, size), f.frames);
    assert Run(g, [END], size) == Step(Run(g, [END][..0], size), END, size);
    FramesOne(msg, size);
  }

  /** The messages as the decoder delivers them. */
  function Frames(msgs: seq<seq<byte>>, size: nat): seq<seq<byte>> {
    if msgs == [] then []
    else
      Frames(msgs[..|msgs| - 1], size)
      + if Cut(msgs[|msgs| - 1], size) == [] then [] else [Cut(msgs[|msgs| - 1], size)]
  }

  lemma FramesOne(msg: seq<byte>, size: nat)
    ensures Frames([msg], size) == if Cut(msg, size) == [] then [] else [Cut(msg, size)]
  {
    var one: seq<seq<byte>> := [msg];
    assert one[..|one| - 1] == [];
  }

  function EncodeAll(msgs: seq<seq<byte>>): seq<byte> {
    if msgs == [] then [] else EncodeAll(msgs[..|msgs| - 1]) + Encode(msgs[|msgs| - 1])
  }

  lemma AllSplit(msgs: seq<seq<byte>>, size: nat)
    requires msgs != []
    ensures var init, msg := msgs[..|msgs| - 1], msgs[|msgs| - 1];
            && EncodeAll(msgs) == EncodeAll(init) + Encode(msg)
            && Frames(msgs, size) == Frames(init, size) + Frames([msg], size)
  {
    FramesOne(msgs[|msgs| - 1], size);
  }

  lemma NoMessages(d: Decoder, size: nat)
    ensures Run(d, EncodeAll([]), size) == d && Frames([], size) == []
  {
  }

  /** Any messages, fed to a decoder in any working state. */
  lemma {:induction false} DecodesAll(d: Decoder, msgs: seq<seq<byte>>, size: nat)
    requires d.state != Idle && msgs != []
    ensures var e := Run(d, EncodeAll(msgs), size);
            e.frames == d.frames + Leftover(d) + Frames(msgs, size) && e.state != Idle && Leftover(e) == []
  {
    hide Run, Frames, EncodeAll, Encode, Leftover;
    var init, msg := msgs[..|msgs| - 1], msgs[|msgs| - 1];
    AllSplit(msgs, size);
    RunSplit(d, EncodeAll(init), Encode(msg), size);
    if init == [] {
      NoMessages(d, size);
      Decodes(d, msg, size);
    } else {
      DecodesAll(d, init, size);
      Decodes(Run(d, EncodeAll(init), size), msg, size);
    }
  }

  lemma {:induction false} FramesExact(msgs: seq<seq<byte>>, size: nat)
    requires forall i :: 0 <= i < |msgs| ==> 1 <= |msgs[i]| <= size
    ensures Frames(msgs, size) == msgs
  {
    if msgs == [] {
    } else {
      var init, msg := msgs[..|msgs| - 1], msgs[|msgs| - 1];
      FramesExact(init, size);
      assert Cut(msg, size) == msg;
      assert msgs == init + [msg];
    }
  }

  /**
   * After any noise a decoder that is not idle delivers a list of messages, each of 1 to size bytes, exactly and in
   * order, with at most one frame of noise just before the first.
   */
  lemma EveryMessageArrives(d: Decoder, noise: seq<byte>, msgs: seq<seq<byte>>, size: nat)
    requires d.state != Idle && msgs != [] && forall i :: 0 <= i < |msgs| ==> 1 <= |msgs[i]| <= size
    ensures var before := Run(d, noise, size);
            Run(d, noise + EncodeAll(msgs), size).frames == before.frames + Leftover(before) + msgs
  {
    RunSplit(d, noise, EncodeAll(msgs), size);
    StaysAwake(d, noise, size);
    DecodesAll(Run(d, noise, size), msgs, size);
    FramesExact(msgs, size);
  }

  lemma {:induction false} StaysAwake(d: Decoder, s: seq<byte>, size: nat)
    requires d.state != Idle
    ensures Run(d, s, size).state != Idle
  {
    if s == [] {
    } else {
      StaysAwake(d, s[..|s| - 1], size);
    }
  }

  // ---- the decoder as it is ------------------------------------------------------------------------

  class Receiver {
    var rxState: RxState
    var rxIndex: nat
    var rxBufferSize: nat
    var rxBuffer: array?<byte>
    var registered: bool
    /** What the upper layer was given. */
    var indications: seq<seq<byte>>

    ghost predicate Valid()
      reads this, rxBuffer
    {
      && rxBufferSize < 0x1_0000 && rxIndex <= rxBufferSize
      && (rxState != Idle ==> rxBuffer != null && registered) && (rxState == Idle ==> rxIndex == 0)
      && (rxBuffer == null ==> rxBufferSize == 0)
      && (rxBuffer != null ==> rxBuffer.Length == rxBufferSize)
    }

    /** What it is in terms of the function. */
    ghost function Abs(): Decoder
      requires Valid()
      reads this, rxBuffer
    {
      Decoder(rxState, if rxBuffer == null then [] else rxBuffer[..rxIndex], indications)
    }

    /** ComSlip_Init. */
    constructor ()
      ensures Valid() && rxState == Idle && !registered && indications == []
    {
      rxState, rxIndex, rxBufferSize, rxBuffer, registered, indications := Idle, 0, 0, null, false, [];
    }

    method RegisterClient()
      requires Valid()
      modifies `registered
      ensures Valid() && registered && Abs() == old(Abs())
    {
      registered := true;
    }

    /** ComSlip_SetRxBuffer: only an idle receiver with a client takes a buffer, and starts to work. */
    method SetRxBuffer(buf: array<byte>) returns (ok: bool)
      requires Valid() && buf.Length < 0x1_0000
      modifies `rxBuffer, `rxBufferSize, `rxState
      ensures Valid() && (ok <==> old(rxState == Idle && registered))
      ensures ok ==> rxState == Start && rxBuffer == buf && rxBufferSize == buf.Length
      ensures !ok ==> rxState == old(rxState) && rxBuffer == old(rxBuffer) && rxBufferSize == old(rxBufferSize)
    {
      ok := false;
      if rxState == Idle && registered {
        rxBuffer, rxBufferSize := buf, buf.Length;
        rxState := Start;
        ok := true;
      }
    }

    method StoreRxByte(b: byte)
      requires Valid() && rxBuffer != null && rxState != Idle
      modifies `rxIndex, rxBuffer
      ensures Valid() && Abs() == Store(old(Abs()), b, rxBufferSize)
    {
      if rxIndex < rxBufferSize {
        rxBuffer[rxIndex] := b;
        assert rxBuffer[..rxIndex + 1] == old(rxBuffer[..rxIndex]) + [b];
        rxIndex := rxIndex + 1;
      }
    }

    /** ComSlip_ProcessRxByte does what the function says. */
    method ProcessRxByte(b: byte)
      requires Valid()
      modifies `rxState, `rxIndex, `indications, rxBuffer
      ensures Valid() && Abs() == Step(old(Abs()), b, rxBufferSize)
    {
      match rxState {
        case Start =>
          if b == END {
            rxIndex := 0;
            rxState := InFrame;
          }
        case InFrame =>
          if b == END {
            if rxIndex > 0 {
              var more := ProcessRxMsg();
              rxState := if more then Start else Idle;
            }
            rxIndex := 0;
          } else if b == ESC {
            rxState := Escape;
          } else {
            StoreRxByte(b);
          }
        case Escape =>
          if b == ESC_END {
            StoreRxByte(END);
            rxState := InFrame;
          } else if b == ESC_ESC {
            StoreRxByte(ESC);
            rxState := InFrame;
          } else {
            rxState := Start;
          }
        case Idle =>
      }
    }

    /** ComSlip_ProcessRxMsg: hand the frame up; whether there still is a buffer. */
    method ProcessRxMsg() returns (more: bool)
      requires Valid() && rxBuffer != null && registered
      modifies `indications
      ensures Valid() && more && indications == old(indications) + [rxBuffer[..rxIndex]]
    {
      if registered {
        indications := indications + [rxBuffer[..rxIndex]];
      }
      more := rxBuffer != null;
    }

    /** receive_message: a chunk of received bytes. */
    method Receive(s: seq<byte>)
      requires Valid()
      modifies `rxState, `rxIndex, `indications, rxBuffer
      ensures Valid() && Abs() == Run(old(Abs()), s, rxBufferSize)
    {
      for i := 0 to |s|
        invariant Valid() && Abs() == Run(old(Abs()), s[..i], rxBufferSize)
      {
        assert s[..i + 1][..i] == s[..i];
        ProcessRxByte(s[i]);
      }
      assert s[..|s|] == s;
    }
  }
}
