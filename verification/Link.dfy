/** The error-correcting serial link: a (16,11) Hamming code with overall parity, over a byte queue.
    Words, data and bytes are bit strings here; index i is bit i of the number. */
module Link {
  import opened Words

  type Word = w: seq<bool> | |w| == 16
    witness [false, false, false, false, false, false, false, false,
             false, false, false, false, false, false, false, false]
  type Data = d: seq<bool> | |d| == 11
    witness [false, false, false, false, false, false, false, false, false, false, false]
  type Octet = b: seq<bool> | |b| == 8
    witness [false, false, false, false, false, false, false, false]

  const ZERO: Data := [false, false, false, false, false, false, false, false, false, false, false]

  function Xor4(a: bool, b: bool, c: bool, d: bool): bool {
    ((a != b) != c) != d
  }

  function Xor8(a: bool, b: bool, c: bool, d: bool, e: bool, f: bool, g: bool, h: bool): bool {
    Xor4(a, b, c, d) != Xor4(e, f, g, h)
  }

  // ------------------------------------------------------------------
  // Encoding
  // ------------------------------------------------------------------

  function P1(d: Data): bool { Xor8(false, d[9], d[6], d[2], d[10], d[7], d[4], d[0]) }
  function P2(d: Data): bool { Xor8(false, d[8], d[5], d[1], d[10], d[7], d[4], d[0]) }
  function P3(d: Data): bool { Xor8(false, d[9], d[8], d[7], d[3], d[2], d[1], d[0]) }
  function P4(d: Data): bool { Xor8(false, d[6], d[5], d[4], d[3], d[2], d[1], d[0]) }

  function PX(d: Data): bool {
    Xor8(d[0], d[1], d[2], d[3], d[4], d[5], d[6], d[7]) !=
    Xor8(d[8], d[9], d[10], P1(d), P2(d), P3(d), P4(d), false)
  }

  /** Bits 7, 11, 13 and 14 are the checks and bit 15 the overall parity; the data bits fill the rest in order. */
  function Encode(d: Data): Word {
    [d[0], d[1], d[2], d[3], d[4], d[5], d[6], P4(d), d[7], d[8], d[9], P3(d), d[10], P2(d), P1(d), PX(d)]
  }

  // ------------------------------------------------------------------
  // Decoding
  // ------------------------------------------------------------------

  function Check1(w: Word): bool { Xor8(w[14], w[10], w[6], w[2], w[12], w[8], w[4], w[0]) }
  function Check2(w: Word): bool { Xor8(w[13], w[9], w[5], w[1], w[12], w[8], w[4], w[0]) }
  function Check3(w: Word): bool { Xor8(w[11], w[10], w[9], w[8], w[3], w[2], w[1], w[0]) }
  function Check4(w: Word): bool { Xor8(w[7], w[6], w[5], w[4], w[3], w[2], w[1], w[0]) }

  function LowParity(w: Word): bool { Xor8(w[0], w[1], w[2], w[3], w[4], w[5], w[6], w[7]) }
  function HighParity(w: Word): bool { Xor8(w[8], w[9], w[10], w[11], w[12], w[13], w[14], w[15]) }

  function CheckX(w: Word): bool {
    LowParity(w) != HighParity(w)
  }

  /** The inverted syndrome; 15 means that no check failed. */
  function Position(c1: bool, c2: bool, c3: bool, c4: bool): (p: nat)
    ensures p < 16
  {
    15 - (Flag(c1, 1) + Flag(c2, 2) + Flag(c3, 4) + Flag(c4, 8))
  }

  function ErrorPos(w: Word): (p: nat)
    ensures p < 16
  {
    Position(Check1(w), Check2(w), Check3(w), Check4(w))
  }

  function Flip(w: Word, i: nat): Word
    requires i < 16
  {
    w[i := !w[i]]
  }

  function Extract(w: Word): Data {
    w[..7] + w[8..11] + [w[12]]
  }

  /** Corrects one error; reports two by returning 0. */
  function Decode(w: Word): Data {
    if ErrorPos(w) != 15 then
      if CheckX(w) then Extract(Flip(w, ErrorPos(w))) else ZERO
    else Extract(w)
  }

  // ------------------------------------------------------------------
  // Checks see flipped bits
  // ------------------------------------------------------------------

  /** The four check bits of an error at position `i`: the digits of 15 - i. */
  function Cover(i: nat, digit: nat): bool
    requires i < 16 && digit in {1, 2, 4, 8}
  {
    match digit
    case 1 => i in {0, 2, 4, 6, 8, 10, 12, 14}
    case 2 => i in {0, 1, 4, 5, 8, 9, 12, 13}
    case 4 => i in {0, 1, 2, 3, 8, 9, 10, 11}
    case _ => i < 8
  }

  lemma Flip1(w: Word, i: nat)
    requires i < 16
    ensures Check1(Flip(w, i)) == (Check1(w) != Cover(i, 1))
  {
  }

  lemma Flip2(w: Word, i: nat)
    requires i < 16
    ensures Check2(Flip(w, i)) == (Check2(w) != Cover(i, 2))
  {
  }

  lemma Flip3(w: Word, i: nat)
    requires i < 16
    ensures Check3(Flip(w, i)) == (Check3(w) != Cover(i, 4))
  {
  }

  lemma Flip4(w: Word, i: nat)
    requires i < 16
    ensures Check4(Flip(w, i)) == (Check4(w) != Cover(i, 8))
  {
  }

  lemma FlipLow(w: Word, i: nat)
    requires i < 16
    ensures LowParity(Flip(w, i)) == (LowParity(w) != (i < 8))
  {
  }

  lemma FlipHigh(w: Word, i: nat)
    requires i < 16
    ensures HighParity(Flip(w, i)) == (HighParity(w) != (i >= 8))
  {
  }

  /** Every check of a word sees exactly the flipped bits it covers. */
  lemma FlipChecks(w: Word, i: nat)
    requires i < 16
    ensures Check1(Flip(w, i)) == (Check1(w) != Cover(i, 1))
    ensures Check2(Flip(w, i)) == (Check2(w) != Cover(i, 2))
    ensures Check3(Flip(w, i)) == (Check3(w) != Cover(i, 4))
    ensures Check4(Flip(w, i)) == (Check4(w) != Cover(i, 8))
    ensures CheckX(Flip(w, i)) == !CheckX(w)
  {
    Flip1(w, i);
    Flip2(w, i);
    Flip3(w, i);
    Flip4(w, i);
    FlipLow(w, i);
    FlipHigh(w, i);
  }

  /** The inverted syndrome of a single flipped bit is its position. */
  lemma PositionOfCover(i: nat)
    requires i < 16
    ensures Position(Cover(i, 1), Cover(i, 2), Cover(i, 4), Cover(i, 8)) == i
  {
  }

  /** A word that passes every check. */
  predicate Codeword(w: Word) {
    !Check1(w) && !Check2(w) && !Check3(w) && !Check4(w) && !CheckX(w)
  }

  lemma EncodedChecks(d: Data)
    ensures !Check1(Encode(d)) && !Check2(Encode(d)) && !Check3(Encode(d)) && !Check4(Encode(d))
  {
  }

  lemma EncodedCheckX(d: Data)
    ensures !CheckX(Encode(d))
  {
  }

  lemma EncodedCarriesData(d: Data)
    ensures Extract(Encode(d)) == d
  {
    var w := Encode(d);
    assert w[..7] == d[..7];
    assert w[8..11] == d[7..10];
    assert w[12] == d[10];
    assert d == d[..7] + d[7..10] + [d[10]];
  }

  lemma EncodedIsCodeword(d: Data)
    ensures Codeword(Encode(d))
  {
    EncodedChecks(d);
    EncodedCheckX(d);
  }

  lemma CodewordCorrected(w: Word, i: nat)
    requires Codeword(w) && i < 16
    ensures Decode(w) == Extract(w) && Decode(Flip(w, i)) == Extract(w)
  {
    FlipChecks(w, i);
    PositionOfCover(i);
    assert ErrorPos(Flip(w, i)) == i;
    assert Flip(Flip(w, i), i) == w;
    assert i == 15 ==> Extract(Flip(w, i)) == Extract(w);
  }

  lemma CodewordRejected(w: Word, i: nat, j: nat)
    requires Codeword(w) && i < 16 && j < 16 && i != j
    ensures Decode(Flip(Flip(w, i), j)) == ZERO
  {
    FlipChecks(w, i);
    FlipChecks(Flip(w, i), j);
    PositionOfCover(i);
    PositionOfCover(j);
  }

  // ------------------------------------------------------------------
  // The line: words as byte pairs, with bits flipped on the way
  // ------------------------------------------------------------------

  /** What happens to one word on the line. */
  datatype Noise = Quiet | One(i: nat) | Two(i: nat, j: nat)

  predicate ValidNoise(n: Noise) {
    match n
    case Quiet => true
    case One(i) => i < 16
    case Two(i, j) => i < 16 && j < 16 && i != j
  }

  function Disturb(w: Word, n: Noise): Word
    requires ValidNoise(n)
  {
    match n
    case Quiet => w
    case One(i) => Flip(w, i)
    case Two(i, j) => Flip(Flip(w, i), j)
  }

  /** What the far end makes of one datum: itself, or 0 after two errors. */
  function Arrival(d: Data, n: Noise): Data {
    if n.Two? then ZERO else d
  }

  /** One word: no or one flipped bit is corrected, two are reported as 0. */
  lemma WordArrives(d: Data, n: Noise)
    requires ValidNoise(n)
    ensures Decode(Disturb(Encode(d), n)) == Arrival(d, n)
  {
    EncodedIsCodeword(d);
    EncodedCarriesData(d);
    match n
    case Quiet => CodewordCorrected(Encode(d), 0);
    case One(i) => CodewordCorrected(Encode(d), i);
    case Two(i, j) => CodewordRejected(Encode(d), i, j);
  }

  function Join(low: Octet, high: Octet): Word {
    var bits: seq<bool> := low;
    bits + high
  }

  function Octets(w: Word): seq<Octet> {
    [w[..8], w[8..]]
  }

  /** The bytes waiting in the receiver, oldest first. */
  class Uart {
    var fifo: seq<Octet>

    constructor ()
      ensures fifo == []
    {
      fifo := [];
    }

    /** Sends the low byte, then the high byte. */
    method TrrsSend(packet: Word)
      modifies this
      ensures fifo == old(fifo) + [packet[..8], packet[8..]]
    {
      fifo := fifo + [packet[..8]];
      fifo := fifo + [packet[8..]];
      assert old(fifo) + [packet[..8]] + [packet[8..]] == old(fifo) + [packet[..8], packet[8..]];
    }

    /** Called when a byte is available. A second byte that does not come in time gives 0. */
    method TrrsRead() returns (packet: Word)
      requires fifo != []
      modifies this
      ensures packet == ReadWord(old(fifo)).0 && fifo == ReadWord(old(fifo)).1
      ensures |old(fifo)| > 1 ==> packet[..8] == old(fifo)[0] && packet[8..] == old(fifo)[1] && fifo == old(fifo)[2..]
      ensures |old(fifo)| == 1 ==> fifo == [] && forall i | 0 <= i < 16 :: !packet[i]
    {
      var low := fifo[0];
      fifo := fifo[1..];
      if fifo == [] {
        return ZERO_WORD;
      }
      packet := Join(low, fifo[0]);
      fifo := fifo[1..];
    }
  }

  const ZERO_WORD: Word := ZERO + [false, false, false, false, false]

  function ReadWord(bytes: seq<Octet>): (Word, seq<Octet>)
    requires bytes != []
  {
    if |bytes| == 1 then (ZERO_WORD, []) else (Join(bytes[0], bytes[1]), bytes[2..])
  }

  /** The bytes on the line for a list of data, each word disturbed by its noise. */
  function Wire(data: seq<Data>, noise: seq<Noise>): seq<Octet>
    requires |noise| == |data| && forall n | n in noise :: ValidNoise(n)
  {
    if data == [] then [] else Octets(Disturb(Encode(data[0]), noise[0])) + Wire(data[1..], noise[1..])
  }

  /** Everything the far end reads and decodes. */
  function Receive(bytes: seq<Octet>): seq<Data>
    decreases |bytes|
  {
    if bytes == [] then []
    else [Decode(ReadWord(bytes).0)] + Receive(ReadWord(bytes).1)
  }

  function Arrivals(data: seq<Data>, noise: seq<Noise>): seq<Data>
    requires |noise| == |data|
  {
    if data == [] then [] else [Arrival(data[0], noise[0])] + Arrivals(data[1..], noise[1..])
  }

  /** A whole stream: every datum arrives in order, except that a double error arrives as 0. */
  lemma {:induction false} StreamArrives(data: seq<Data>, noise: seq<Noise>)
    requires |noise| == |data| && forall n | n in noise :: ValidNoise(n)
    ensures Receive(Wire(data, noise)) == Arrivals(data, noise)
  {
    if data != [] {
      var w := Disturb(Encode(data[0]), noise[0]);
      var rest := Wire(data[1..], noise[1..]);
      WordArrives(data[0], noise[0]);
      StreamArrives(data[1..], noise[1..]);
      ReadFirst(w, rest);
    }
  }

  lemma ReadFirst(w: Word, rest: seq<Octet>)
    ensures ReadWord(Octets(w) + rest) == (w, rest)
  {
    var bytes := Octets(w) + rest;
    assert bytes[0] == w[..8] && bytes[1] == w[8..] && bytes[2..] == rest;
    assert w[..8] + w[8..] == w;
  }

  /** With at most one flipped bit in each word the received data are those sent. */
  lemma {:induction false} CorrectedStream(data: seq<Data>, noise: seq<Noise>)
    requires |noise| == |data| && forall n | n in noise :: ValidNoise(n) && !n.Two?
    ensures Receive(Wire(data, noise)) == data
  {
    StreamArrives(data, noise);
    ArrivalsAreData(data, noise);
  }

  lemma {:induction false} ArrivalsAreData(data: seq<Data>, noise: seq<Noise>)
    requires |noise| == |data| && forall n | n in noise :: !n.Two?
    ensures Arrivals(data, noise) == data
  {
    if data != [] {
      assert noise[0] in noise;
      ArrivalsAreData(data[1..], noise[1..]);
    }
  }

  // ------------------------------------------------------------------
  // The code as numbers
  // ------------------------------------------------------------------

  /** Data bits 0 to 6 are bits 0 to 6 of the word, 7 to 9 are bits 8 to 10, and 10 is bit 12. */
  lemma EncodedLayout(d: Data)
    ensures Encode(d)[..7] == d[..7] && Encode(d)[8..11] == d[7..10] && Encode(d)[12] == d[10]
  {
  }

  /** The bits set in the code words of the single data bits. */
  const UNIT_WORDS: seq<set<nat>> := [
    {0, 7, 11, 13, 14, 15}, {1, 7, 11, 13}, {2, 7, 11, 14}, {3, 7, 11, 15}, {4, 7, 13, 14}, {5, 7, 13, 15},
    {6, 7, 14, 15}, {8, 11, 13, 14}, {9, 11, 13, 15}, {10, 11, 14, 15}, {12, 13, 14, 15}
  ]

  function Unit(i: nat): Data
    requires i < 11
  {
    ZERO[i := true]
  }

  lemma UnitChecks(i: nat)
    requires i < 11
    ensures P1(Unit(i)) <==> i in {0, 2, 4, 6, 7, 9, 10}
    ensures P2(Unit(i)) <==> i in {0, 1, 4, 5, 7, 8, 10}
    ensures P3(Unit(i)) <==> i in {0, 1, 2, 3, 7, 8, 9}
    ensures P4(Unit(i)) <==> i in {0, 1, 2, 3, 4, 5, 6}
  {
  }

  lemma UnitParity(i: nat)
    requires i < 11
    ensures PX(Unit(i)) <==> i in {0, 3, 5, 6, 8, 9, 10}
  {
    UnitChecks(i);
  }

  lemma UnitWord(i: nat, j: nat)
    requires i < 11 && j < 16
    ensures Encode(Unit(i))[j] <==> j in UNIT_WORDS[i]
  {
    UnitChecks(i);
    UnitParity(i);
    if j !in {7, 11, 13, 14, 15} {
      UnitData(i, j);
    }
  }

  /** Where data bit `i` goes. */
  lemma UnitData(i: nat, j: nat)
    requires i < 11 && j < 16 && j !in {7, 11, 13, 14, 15}
    ensures Encode(Unit(i))[j] <==> j == if i < 7 then i else if i < 10 then i + 1 else 12
  {
  }
}
