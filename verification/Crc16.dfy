/**
 * CRC-16/CCITT as the serial link to the radio uses it: by table and bit by bit, with its residue (Appendix C.2 of RFC
 * 1662) and the errors it cannot miss.
 */
module Crc16 {

  const POLYNOM: bv16 := 0x8408
  const GOOD_VALUE: bv16 := 0x0F47

  type Octet = b: bv16 | b < 0x100

  // ---- bit by bit ----------------------------------------------------------------------------------

  /** One turn of the inner loop: the lowest bits of byte and register decide whether the polynomial is applied. */
  function BitStep(crc: bv16, byte: bv16): bv16 {
    if (byte & 1) ^ (crc & 1) != 0 then (crc >> 1) ^ POLYNOM else crc >> 1
  }

  /** n turns of it, the byte shifted on each time. */
  function BitSteps(crc: bv16, byte: bv16, n: nat): bv16
    decreases n
  {
    if n == 0 then crc else BitSteps(BitStep(crc, byte), byte >> 1, n - 1)
  }

  /** The register after a whole byte. */
  function Feed(crc: bv16, byte: bv16): bv16 { BitSteps(crc, byte, 8) }

  /** The register after a sequence of bytes: the reference for both variants. */
  function Crc(data: seq<Octet>, init: bv16): bv16 {
    if data == [] then init else Feed(Crc(data[..|data| - 1], init), data[|data| - 1])
  }

  /** The variant of CRC16_Calc without table. */
  method CalcByBits(data: seq<Octet>, init: bv16) returns (crc: bv16)
    ensures crc == Crc(data, init)
  {
    crc := init;
    for i := 0 to |data|
      invariant crc == Crc(data[..i], init)
    {
      var bits, byte: bv16 := 8, data[i];
      while bits > 0
        invariant 0 <= bits <= 8 && BitSteps(crc, byte, bits) == Feed(Crc(data[..i], init), data[i])
      {
        if (byte & 1) ^ (crc & 1) != 0 {
          crc := (crc >> 1) ^ POLYNOM;
        } else {
          crc := crc >> 1;
        }
        byte := byte >> 1;
        bits := bits - 1;
      }
      assert data[..i + 1][..i] == data[..i];
    }
    assert data[..|data|] == data;
  }

  // ---- by table ------------------------------------------------------------------------------------

  function Pick(i: bv16, a: bv16, b: bv16, c: bv16, d: bv16, e: bv16, f: bv16, g: bv16, h: bv16): bv16 {
    if i == 0 then a else if i == 1 then b else if i == 2 then c else if i == 3 then d
    else if i == 4 then e else if i == 5 then f else if i == 6 then g else h
  }

  /** CRC16_Table, in rows of eight; first half. */
  function TableLow(x: Octet): bv16 {
    var i := x & 7;
    match x >> 3
    case 0 => Pick(i, 0x0000, 0x1189, 0x2312, 0x329B, 0x4624, 0x57AD, 0x6536, 0x74BF)
    case 1 => Pick(i, 0x8C48, 0x9DC1, 0xAF5A, 0xBED3, 0xCA6C, 0xDBE5, 0xE97E, 0xF8F7)
    case 2 => Pick(i, 0x1081, 0x0108, 0x3393, 0x221A, 0x56A5, 0x472C, 0x75B7, 0x643E)
    case 3 => Pick(i, 0x9CC9, 0x8D40, 0xBFDB, 0xAE52, 0xDAED, 0xCB64, 0xF9FF, 0xE876)
    case 4 => Pick(i, 0x2102, 0x308B, 0x0210, 0x1399, 0x6726, 0x76AF, 0x4434, 0x55BD)
    case 5 => Pick(i, 0xAD4A, 0xBCC3, 0x8E58, 0x9FD1, 0xEB6E, 0xFAE7, 0xC87C, 0xD9F5)
    case 6 => Pick(i, 0x3183, 0x200A, 0x1291, 0x0318, 0x77A7, 0x662E, 0x54B5, 0x453C)
    case 7 => Pick(i, 0xBDCB, 0xAC42, 0x9ED9, 0x8F50, 0xFBEF, 0xEA66, 0xD8FD, 0xC974)
    case 8 => Pick(i, 0x4204, 0x538D, 0x6116, 0x709F, 0x0420, 0x15A9, 0x2732, 0x36BB)
    case 9 => Pick(i, 0xCE4C, 0xDFC5, 0xED5E, 0xFCD7, 0x8868, 0x99E1, 0xAB7A, 0xBAF3)
    case 10 => Pick(i, 0x5285, 0x430C, 0x7197, 0x601E, 0x14A1, 0x0528, 0x37B3, 0x263A)
    case 11 => Pick(i, 0xDECD, 0xCF44, 0xFDDF, 0xEC56, 0x98E9, 0x8960, 0xBBFB, 0xAA72)
    case 12 => Pick(i, 0x6306, 0x728F, 0x4014, 0x519D, 0x2522, 0x34AB, 0x0630, 0x17B9)
    case 13 => Pick(i, 0xEF4E, 0xFEC7, 0xCC5C, 0xDDD5, 0xA96A, 0xB8E3, 0x8A78, 0x9BF1)
    case 14 => Pick(i, 0x7387, 0x620E, 0x5095, 0x411C, 0x35A3, 0x242A, 0x16B1, 0x0738)
    case _ => Pick(i, 0xFFCF, 0xEE46, 0xDCDD, 0xCD54, 0xB9EB, 0xA862, 0x9AF9, 0x8B70)
  }

  /** Second half. */
  function TableHigh(x: Octet): bv16 {
    var i := x & 7;
    match x >> 3
    case 16 => Pick(i, 0x8408, 0x9581, 0xA71A, 0xB693, 0xC22C, 0xD3A5, 0xE13E, 0xF0B7)
    case 17 => Pick(i, 0x0840, 0x19C9, 0x2B52, 0x3ADB, 0x4E64, 0x5FED, 0x6D76, 0x7CFF)
    case 18 => Pick(i, 0x9489, 0x8500, 0xB79B, 0xA612, 0xD2AD, 0xC324, 0xF1BF, 0xE036)
    case 19 => Pick(i, 0x18C1, 0x0948, 0x3BD3, 0x2A5A, 0x5EE5, 0x4F6C, 0x7DF7, 0x6C7E)
    case 20 => Pick(i, 0xA50A, 0xB483, 0x8618, 0x9791, 0xE32E, 0xF2A7, 0xC03C, 0xD1B5)
    case 21 => Pick(i, 0x2942, 0x38CB, 0x0A50, 0x1BD9, 0x6F66, 0x7EEF, 0x4C74, 0x5DFD)
    case 22 => Pick(i, 0xB58B, 0xA402, 0x9699, 0x8710, 0xF3AF, 0xE226, 0xD0BD, 0xC134)
    case 23 => Pick(i, 0x39C3, 0x284A, 0x1AD1, 0x0B58, 0x7FE7, 0x6E6E, 0x5CF5, 0x4D7C)
    case 24 => Pick(i, 0xC60C, 0xD785, 0xE51E, 0xF497, 0x8028, 0x91A1, 0xA33A, 0xB2B3)
    case 25 => Pick(i, 0x4A44, 0x5BCD, 0x6956, 0x78DF, 0x0C60, 0x1DE9, 0x2F72, 0x3EFB)
    case 26 => Pick(i, 0xD68D, 0xC704, 0xF59F, 0xE416, 0x90A9, 0x8120, 0xB3BB, 0xA232)
    case 27 => Pick(i, 0x5AC5, 0x4B4C, 0x79D7, 0x685E, 0x1CE1, 0x0D68, 0x3FF3, 0x2E7A)
    case 28 => Pick(i, 0xE70E, 0xF687, 0xC41C, 0xD595, 0xA12A, 0xB0A3, 0x8238, 0x93B1)
    case 29 => Pick(i, 0x6B46, 0x7ACF, 0x4854, 0x59DD, 0x2D62, 0x3CEB, 0x0E70, 0x1FF9)
    case 30 => Pick(i, 0xF78F, 0xE606, 0xD49D, 0xC514, 0xB1AB, 0xA022, 0x92B9, 0x8330)
    case _ => Pick(i, 0x7BC7, 0x6A4E, 0x58D5, 0x495C, 0x3DE3, 0x2C6A, 0x1EF1, 0x0F78)
  }

  function Table(x: Octet): bv16 {
    if x < 128 then TableLow(x) else TableHigh(x)
  }

  /** The eight turns written out. */
  lemma FeedUnrolled(crc: bv16, b: bv16)
    ensures var four := BitStep(BitStep(BitStep(BitStep(crc, b), b >> 1), b >> 2), b >> 3);
            Feed(crc, b) == BitStep(BitStep(BitStep(BitStep(four, b >> 4), b >> 5), b >> 6), b >> 7)
  {
    hide BitStep;
    var c1 := BitStep(crc, b);
    var c2 := BitStep(c1, b >> 1);
    var c3 := BitStep(c2, b >> 2);
    var c4 := BitStep(c3, b >> 3);
    var c5 := BitStep(c4, b >> 4);
    var c6 := BitStep(c5, b >> 5);
    var c7 := BitStep(c6, b >> 6);
    assert BitSteps(c7, b >> 7, 1) == BitStep(c7, b >> 7);
    assert (b >> 6) >> 1 == b >> 7;
    assert BitSteps(c6, b >> 6, 2) == BitSteps(c7, b >> 7, 1);
    assert (b >> 5) >> 1 == b >> 6;
    assert BitSteps(c5, b >> 5, 3) == BitSteps(c6, b >> 6, 2);
    assert (b >> 4) >> 1 == b >> 5;
    assert BitSteps(c4, b >> 4, 4) == BitSteps(c5, b >> 5, 3);
    assert (b >> 3) >> 1 == b >> 4;
    assert BitSteps(c3, b >> 3, 5) == BitSteps(c4, b >> 4, 4);
    assert (b >> 2) >> 1 == b >> 3;
    assert BitSteps(c2, b >> 2, 6) == BitSteps(c3, b >> 3, 5);
    assert (b >> 1) >> 1 == b >> 2;
    assert BitSteps(c1, b >> 1, 7) == BitSteps(c2, b >> 2, 6);
    assert BitSteps(crc, b, 8) == BitSteps(c1, b >> 1, 7);
  }

  /** What both come to: the byte folded onto itself, shifted to the taps of the polynomial. */
  function Folded(x: bv16): bv16 {
    var y := (x ^ (x << 4)) & 0xFF;
    (y << 8) ^ (y << 3) ^ (y >> 4)
  }

  lemma FeedFolded(x: Octet)
    ensures Feed(x, 0) == Folded(x)
  {
    hide BitSteps;
    FeedUnrolled(x, 0);
  }

  lemma LowFolded(x: Octet)
    requires x < 128
    ensures TableLow(x) == Folded(x)
  {
  }

  lemma HighFolded(x: Octet)
    requires x >= 128
    ensures TableHigh(x) == Folded(x)
  {
  }

  /** Every entry of the table is what eight bit steps make of its index. */
  lemma TableIsFeed(x: Octet)
    ensures Table(x) == Feed(x, 0)
  {
    hide TableLow, TableHigh, Folded, Feed;
    FeedFolded(x);
    if x < 128 { LowFolded(x); } else { HighFolded(x); }
  }

  // ---- the two variants agree ----------------------------------------------------------------------

  /** Bitwise addition, as a name for what the following lemmas calculate with. */
  function Xor(a: bv16, b: bv16): bv16 { a ^ b }

  function Half(a: bv16): bv16 { a >> 1 }

  function Lowest(a: bv16): bv16 { a & 1 }

  lemma StepInParts(c: bv16, b: bv16)
    ensures BitStep(c, b) == if Lowest(b) != Lowest(c) then Xor(Half(c), POLYNOM) else Half(c)
  {
  }

  lemma LowestXor(c: bv16, b: bv16)
    ensures Lowest(0) != Lowest(Xor(c, b)) <==> Lowest(b) != Lowest(c)
  {
  }

  lemma HalfXor(c: bv16, b: bv16, p: bv16)
    ensures Half(Xor(c, b)) == Xor(Half(c), Half(b))
    ensures Xor(Xor(Half(c), Half(b)), p) == Xor(Xor(Half(c), p), Half(b))
  {
    hide Half;
    HalfBoth(c, b);
    XorMoves(Half(c), Half(b), p);
  }

  lemma HalfBoth(c: bv16, b: bv16)
    ensures Half(Xor(c, b)) == Xor(Half(c), Half(b))
  {
  }

  lemma XorMoves(c: bv16, b: bv16, p: bv16)
    ensures Xor(Xor(c, b), p) == Xor(Xor(c, p), b)
  {
  }

  /** One turn with a bit from the byte is one turn without, the byte laid over the register. */
  lemma Turn(c: bv16, b: bv16)
    ensures BitStep(Xor(c, b), 0) == Xor(BitStep(c, b), Half(b))
  {
    hide BitStep, Xor, Half, Lowest;
    StepInParts(Xor(c, b), 0);
    StepInParts(c, b);
    LowestXor(c, b);
    HalfXor(c, b, POLYNOM);
  }

  /** What is left of the byte after n turns. */
  function Rest(b: bv16, n: nat): bv16
    decreases n
  {
    if n == 0 then b else Rest(Half(b), n - 1)
  }

  lemma Turns(c: bv16, b: bv16, n: nat)
    requires n > 0
    ensures BitSteps(c, b, n) == BitSteps(BitStep(c, b), Half(b), n - 1) && Half(0) == 0
  {
    hide BitStep;
  }

  lemma {:induction false} TurnsXor(c: bv16, b: bv16, n: nat)
    ensures BitSteps(Xor(c, b), 0, n) == Xor(BitSteps(c, b, n), Rest(b, n))
    decreases n
  {
    hide BitStep, Xor, Half;
    if n == 0 {
    } else {
      Turn(c, b);
      Turns(c, b, n);
      Turns(Xor(c, b), 0, n);
      TurnsXor(BitStep(c, b), Half(b), n - 1);
    }
  }

  lemma OctetGone(b: Octet)
    ensures Rest(b, 8) == 0
  {
    assert Rest(b >> 7, 1) == Rest(Half(b >> 7), 0) == 0;
    assert Half(b >> 6) == b >> 7 && Rest(b >> 6, 2) == Rest(b >> 7, 1);
    assert Half(b >> 5) == b >> 6 && Rest(b >> 5, 3) == Rest(b >> 6, 2);
    assert Half(b >> 4) == b >> 5 && Rest(b >> 4, 4) == Rest(b >> 5, 3);
    assert Half(b >> 3) == b >> 4 && Rest(b >> 3, 5) == Rest(b >> 4, 4);
    assert Half(b >> 2) == b >> 3 && Rest(b >> 2, 6) == Rest(b >> 3, 5);
    assert Half(b >> 1) == b >> 2 && Rest(b >> 1, 7) == Rest(b >> 2, 6);
    assert Half(b) == b >> 1 && Rest(b, 8) == Rest(b >> 1, 7);
  }

  /** Feeding a byte is feeding zeros to the register with the byte laid over it. */
  lemma FeedXor(c: bv16, b: Octet)
    ensures Feed(c, b) == Feed(Xor(c, b), 0)
  {
    hide BitSteps, Rest;
    TurnsXor(c, b, 8);
    OctetGone(b);
    assert Xor(Feed(c, b), 0) == Feed(c, b);
  }

  function Low(c: bv16): Octet { c & 0xFF }

  function High(c: bv16): Octet { c >> 8 }

  /** Eight turns on a register with a high byte laid over it: that byte comes down. */
  lemma FeedHigh(c: bv16, h: bv16)
    requires h & 0xFF == 0
    ensures Feed(Xor(c, h), 0) == Xor(Feed(c, 0), High(h))
  {
    hide BitSteps, Rest, Feed, Xor;
    assert Feed(Xor(c, h), 0) == BitSteps(Xor(c, h), 0, 8)
      && Feed(c, h) == BitSteps(c, h, 8)
    by {
      RevealFeed(c, h);
      RevealFeed(Xor(c, h), 0);
    }
    TurnsXor(c, h, 8);
    HighRest(h);
    HighUnfed(c, h);
  }

  lemma RevealFeed(c: bv16, h: bv16)
    ensures Feed(c, h) == BitSteps(c, h, 8)
  {
  }

  lemma HighRest(h: bv16)
    requires h & 0xFF == 0
    ensures Rest(h, 8) == High(h)
  {
    assert Rest(h >> 7, 1) == Rest(Half(h >> 7), 0) == h >> 8;
    assert Half(h >> 6) == h >> 7 && Rest(h >> 6, 2) == Rest(h >> 7, 1);
    assert Half(h >> 5) == h >> 6 && Rest(h >> 5, 3) == Rest(h >> 6, 2);
    assert Half(h >> 4) == h >> 5 && Rest(h >> 4, 4) == Rest(h >> 5, 3);
    assert Half(h >> 3) == h >> 4 && Rest(h >> 3, 5) == Rest(h >> 4, 4);
    assert Half(h >> 2) == h >> 3 && Rest(h >> 2, 6) == Rest(h >> 3, 5);
    assert Half(h >> 1) == h >> 2 && Rest(h >> 1, 7) == Rest(h >> 2, 6);
    assert Half(h) == h >> 1 && Rest(h, 8) == Rest(h >> 1, 7);
  }

  /** The low n bits of h are 0. */
  predicate Blank(h: bv16, n: nat)
    decreases n
  {
    n == 0 || (h & 1 == 0 && Blank(Half(h), n - 1))
  }

  lemma HighBlank(h: bv16)
    requires h & 0xFF == 0
    ensures Blank(h, 8)
  {
    assert Blank(h >> 7, 1);
    assert Half(h >> 6) == h >> 7 && Blank(h >> 6, 2);
    assert Half(h >> 5) == h >> 6 && Blank(h >> 5, 3);
    assert Half(h >> 4) == h >> 5 && Blank(h >> 4, 4);
    assert Half(h >> 3) == h >> 4 && Blank(h >> 3, 5);
    assert Half(h >> 2) == h >> 3 && Blank(h >> 2, 6);
    assert Half(h >> 1) == h >> 2 && Blank(h >> 1, 7);
    assert Half(h) == h >> 1;
  }

  lemma StepBlank(c: bv16, h: bv16)
    requires h & 1 == 0
    ensures BitStep(c, h) == BitStep(c, 0)
  {
  }

  lemma {:induction false} Unfed(c: bv16, h: bv16, n: nat)
    requires Blank(h, n)
    ensures BitSteps(c, h, n) == BitSteps(c, 0, n)
    decreases n
  {
    hide BitStep, Half;
    if n == 0 {
    } else {
      StepBlank(c, h);
      Turns(c, h, n);
      Turns(c, 0, n);
      Unfed(BitStep(c, 0), Half(h), n - 1);
    }
  }

  /** Only the low byte of what is fed has any effect within eight turns. */
  lemma HighUnfed(c: bv16, h: bv16)
    requires h & 0xFF == 0
    ensures Feed(c, h) == Feed(c, 0)
  {
    hide BitSteps, Blank;
    HighBlank(h);
    Unfed(c, h, 8);
  }

  /** The step of the table loop. */
  function TableFeed(c: bv16, b: Octet): bv16 {
    (c >> 8) ^ Table((c ^ b) & 0xFF)
  }

  /** It is eight bit steps. */
  lemma TableStep(c: bv16, b: Octet)
    ensures TableFeed(c, b) == Feed(c, b)
  {
    hide Feed, Table, BitSteps;
    var x := Xor(c, b);
    FeedXor(c, b);
    Split(x);
    FeedHigh(Low(x), x & 0xFF00);
    TableIsFeed(Low(x));
    Merge(c, b);
  }

  lemma Split(x: bv16)
    ensures Xor(Low(x), x & 0xFF00) == x && (x & 0xFF00) & 0xFF == 0 && High(x & 0xFF00) == x >> 8
  {
  }

  lemma Merge(c: bv16, b: Octet)
    ensures Low(Xor(c, b)) == (c ^ b) & 0xFF && Xor(c, b) >> 8 == c >> 8
  {
  }

  /** CRC16_Calc by table: the same register as bit by bit, for all data and initial values. */
  method Calc(data: seq<Octet>, init: bv16) returns (crc: bv16)
    ensures crc == Crc(data, init)
  {
    hide TableFeed, Feed;
    crc := init;
    for i := 0 to |data|
      invariant crc == Crc(data[..i], init)
    {
      assert data[..i + 1][..i] == data[..i];
      TableStep(crc, data[i]);
      crc := TableFeed(crc, data[i]);
    }
    assert data[..|data|] == data;
  }

  // ---- checking ------------------------------------------------------------------------------------

  /** CRC16_Check. */
  method Check(data: seq<Octet>, init: bv16) returns (ok: bool)
    ensures ok <==> !Crc(data, init) == GOOD_VALUE
  {
    var crc := Calc(data, init);
    crc := !crc;
    ok := crc == GOOD_VALUE;
  }

  /** The data with the complemented CRC behind it, low byte first. */
  function Attached(data: seq<Octet>, init: bv16): seq<Octet> {
    data + [Low(!Crc(data, init)), High(!Crc(data, init))]
  }

  /** Attaching the CRC always makes the check succeed. */
  lemma AttachedPasses(data: seq<Octet>, init: bv16)
    ensures !Crc(Attached(data, init), init) == GOOD_VALUE
  {
    hide Feed, Low, High, Crc;
    var c := Crc(data, init);
    CrcMore(data, Low(!c), init);
    CrcMore(data + [Low(!c)], High(!c), init);
    assert Attached(data, init) == data + [Low(!c)] + [High(!c)];
    Residue(c);
  }

  /** One byte more is one step more. */
  lemma CrcMore(data: seq<Octet>, b: Octet, init: bv16)
    ensures Crc(data + [b], init) == Feed(Crc(data, init), b)
  {
    hide Feed;
    assert (data + [b])[..|data|] == data;
  }

  /** A register fed its own complement ends at 0xF0B8. */
  lemma Residue(c: bv16)
    ensures Feed(Feed(c, Low(!c)), High(!c)) == !GOOD_VALUE
  {
    hide Feed;
    ResidueLow(c);
    ResidueHigh(c);
  }

  lemma ResidueLow(c: bv16)
    ensures Feed(c, Low(!c)) == (c >> 8) ^ Table(0xFF)
  {
    hide Feed, Table;
    TableStep(c, Low(!c));
  }

  lemma ResidueHigh(c: bv16)
    ensures Feed((c >> 8) ^ Table(0xFF), High(!c)) == !GOOD_VALUE
  {
    hide Feed;
    TableStep((c >> 8) ^ Table(0xFF), High(!c));
  }

  // ---- errors that cannot be missed ------------------------------------------------------------------

  /** No turn loses information: the polynomial's top bit tells whether it was applied. */
  lemma StepInjective(c: bv16, d: bv16)
    requires BitStep(c, 0) == BitStep(d, 0)
    ensures c == d
  {
    if c & 1 != 0 {
      assert BitStep(c, 0) == (c >> 1) ^ POLYNOM;
    } else {
      assert BitStep(c, 0) == c >> 1;
    }
  }

  lemma {:induction false} TurnsInjective(c: bv16, d: bv16, n: nat)
    requires BitSteps(c, 0, n) == BitSteps(d, 0, n)
    ensures c == d
    decreases n
  {
    hide BitStep, Half;
    if n == 0 {
    } else {
      Turns(c, 0, n);
      Turns(d, 0, n);
      TurnsInjective(BitStep(c, 0), BitStep(d, 0), n - 1);
      StepInjective(c, d);
    }
  }

  lemma ZerosInjective(c: bv16, d: bv16)
    requires Feed(c, 0) == Feed(d, 0)
    ensures c == d
  {
    hide BitSteps;
    TurnsInjective(c, d, 8);
  }

  /** Different registers stay different, whatever byte is fed to both. */
  lemma FeedInjective(c: bv16, d: bv16, b: Octet)
    requires Feed(c, b) == Feed(d, b)
    ensures c == d
  {
    hide Feed, Xor;
    FeedXor(c, b);
    FeedXor(d, b);
    ZerosInjective(Xor(c, b), Xor(d, b));
    XorCancels(c, d, b);
  }

  lemma XorCancels(c: bv16, d: bv16, b: bv16)
    requires Xor(c, b) == Xor(d, b)
    ensures c == d
  {
    assert Xor(Xor(c, b), b) == c && Xor(Xor(d, b), b) == d;
  }

  /** Two bytes, as one number, laid over the register. */
  function Pair(a: Octet, b: Octet): bv16 { a ^ (b << 8) }

  /** Feeding two bytes is sixteen zero bits on the register with both laid over it. */
  lemma FeedPair(c: bv16, a: Octet, b: Octet)
    ensures Feed(Feed(c, a), b) == Feed(Feed(Xor(c, Pair(a, b)), 0), 0)
  {
    hide Feed, Xor, Pair, High;
    FeedXor(c, a);
    FeedXor(Feed(c, a), b);
    HighOf(b);
    FeedHigh(Xor(c, a), b << 8);
    PairXor(c, a, b);
  }

  lemma HighOf(b: Octet)
    ensures (b << 8) & 0xFF == 0 && High(b << 8) == b
  {
  }

  lemma PairXor(c: bv16, a: Octet, b: Octet)
    ensures Xor(Xor(c, a), b << 8) == Xor(c, Pair(a, b))
  {
  }

  /** Two bytes fed to a register can be told from the register they lead to. */
  lemma PairInjective(c: bv16, a: Octet, b: Octet, x: Octet, y: Octet)
    requires Feed(Feed(c, a), b) == Feed(Feed(c, x), y)
    ensures a == x && b == y
  {
    hide Feed, Xor, Pair;
    FeedPair(c, a, b);
    FeedPair(c, x, y);
    ZerosInjective(Feed(Xor(c, Pair(a, b)), 0), Feed(Xor(c, Pair(x, y)), 0));
    ZerosInjective(Xor(c, Pair(a, b)), Xor(c, Pair(x, y)));
    Unpair(c, a, b, x, y);
  }

  lemma Unpair(c: bv16, a: Octet, b: Octet, x: Octet, y: Octet)
    requires Xor(c, Pair(a, b)) == Xor(c, Pair(x, y))
    ensures a == x && b == y
  {
    hide Xor, Pair;
    Swapped(c, Pair(a, b));
    Swapped(c, Pair(x, y));
    XorCancels(Pair(a, b), Pair(x, y), c);
    Parts(a, b);
    Parts(x, y);
  }

  lemma Swapped(a: bv16, b: bv16)
    ensures Xor(a, b) == Xor(b, a)
  {
  }

  lemma Parts(a: Octet, b: Octet)
    ensures Low(Pair(a, b)) == a && High(Pair(a, b)) == b
  {
  }

  /** The check accepts exactly those two bytes behind the data. */
  lemma CheckExactly(data: seq<Octet>, init: bv16, a: Octet, b: Octet)
    ensures !Crc(data + [a, b], init) == GOOD_VALUE <==> data + [a, b] == Attached(data, init)
  {
    hide Feed, Low, High;
    AttachedPasses(data, init);
    var c := Crc(data, init);
    CrcTwo(data, init, a, b);
    CrcTwo(data, init, Low(!c), High(!c));
    if !Crc(data + [a, b], init) == GOOD_VALUE {
      Complement(Crc(data + [a, b], init), Crc(Attached(data, init), init));
      PairInjective(c, a, b, Low(!c), High(!c));
    }
  }

  lemma Complement(c: bv16, d: bv16)
    requires !c == !d
    ensures c == d
  {
    assert !!c == c && !!d == d;
  }

  lemma CrcTwo(data: seq<Octet>, init: bv16, a: Octet, b: Octet)
    ensures Crc(data + [a, b], init) == Feed(Feed(Crc(data, init), a), b)
  {
    hide Feed;
    var s := data + [a, b];
    assert s[..|s| - 1] == data + [a] && (data + [a])[..|data|] == data;
  }

  /** Registers that differ before the same bytes differ after them. */
  lemma {:induction false} TailInjective(s: seq<Octet>, t: seq<Octet>, init: bv16, n: nat)
    requires n <= |s| == |t| && s[n..] == t[n..] && Crc(s[..n], init) != Crc(t[..n], init)
    ensures Crc(s, init) != Crc(t, init)
    decreases |s|
  {
    hide Feed;
    if |s| == n {
      assert s[..n] == s && t[..n] == t;
    } else {
      var last := |s| - 1;
      assert s[last] == s[n..][last - n] == t[n..][last - n] == t[last];
      assert s[..last][..n] == s[..n] && t[..last][..n] == t[..n];
      assert s[..last][n..] == s[n..][..last - n] == t[..last][n..];
      TailInjective(s[..last], t[..last], init, n);
      if Crc(s, init) == Crc(t, init) { FeedInjective(Crc(s[..last], init), Crc(t[..last], init), s[last]); }
    }
  }

  /** Messages of equal length that differ, but only within two neighbouring bytes, always have different CRCs. */
  lemma BurstSeen(s: seq<Octet>, t: seq<Octet>, init: bv16, i: nat)
    requires |s| == |t| && i + 2 <= |s| && s != t && s[..i] == t[..i] && s[i + 2..] == t[i + 2..]
    ensures Crc(s, init) != Crc(t, init)
  {
    hide Feed;
    var h := s[..i];
    assert s[..i + 2] == h + [s[i], s[i + 1]] && t[..i + 2] == h + [t[i], t[i + 1]];
    assert s == h + [s[i], s[i + 1]] + s[i + 2..] && t == h + [t[i], t[i + 1]] + t[i + 2..];
    CrcTwo(h, init, s[i], s[i + 1]);
    CrcTwo(h, init, t[i], t[i + 1]);
    if Crc(s[..i + 2], init) == Crc(t[..i + 2], init) {
      PairInjective(Crc(h, init), s[i], s[i + 1], t[i], t[i + 1]);
    }
    TailInjective(s, t, init, i + 2);
  }

  /** In particular messages that differ in exactly one byte. */
  lemma OneByteSeen(s: seq<Octet>, t: seq<Octet>, init: bv16, i: nat)
    requires |s| == |t| && i < |s| && s[i] != t[i] && s[..i] == t[..i] && s[i + 1..] == t[i + 1..]
    ensures Crc(s, init) != Crc(t, init)
  {
    hide Feed;
    var c := Crc(s[..i], init);
    assert s[..i + 1][..i] == s[..i] && t[..i + 1][..i] == t[..i];
    if Feed(c, s[i]) == Feed(c, t[i]) { PairInjective(c, s[i], 0, t[i], 0); }
    TailInjective(s, t, init, i + 1);
  }
}
