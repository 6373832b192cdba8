/** The two checksum routines of the host tools: one goes bit by bit, the other
    by a table of 256 entries. */
module Crc {
  import opened Wrappers

  const POLY: bv16 := 0xA001
  const START: bv16 := 0xFFFF

  // ---------------------------------------------------------------------
  // A register over any words
  // ---------------------------------------------------------------------

  // That the register is linear is a matter of a few laws of the operations on
  // its words; the inductions need no more of them.

  datatype Words<!T> = Words(xor: (T, T) -> T, down: T -> T, out: T -> T, odd: T -> bool, zero: T)

  /** One bit: the register moves down and meets what falls out of it and the
      data. */
  function Step<T>(w: Words<T>, c: T, b: T): T {
    w.xor(w.down(c), w.out(w.xor(c, b)))
  }

  /** The data after n bits, and the register. */
  function Moved<T>(w: Words<T>, b: T, n: nat): T {
    if n == 0 then b else w.down(Moved(w, b, n - 1))
  }

  function Run<T>(w: Words<T>, c: T, b: T, n: nat): T {
    if n == 0 then c else Step(w, Run(w, c, b, n - 1), Moved(w, b, n - 1))
  }

  /** Data met with the register at once only has to move out. */
  ghost predicate TakesBit<T>(w: Words<T>, a: T, b: T) {
    Step(w, w.xor(a, b), b) == w.xor(Step(w, a, w.zero), w.down(b))
  }

  ghost predicate TakesData<T(!new)>(w: Words<T>) {
    w.down(w.zero) == w.zero && forall a, b {:trigger TakesBit(w, a, b)} :: TakesBit(w, a, b)
  }

  /** Bits that are not at the low end only move. */
  ghost predicate MovesBit<T>(w: Words<T>, a: T, b: T) {
    !w.odd(b) ==> Step(w, w.xor(a, b), w.zero) == w.xor(Step(w, a, w.zero), w.down(b))
  }

  ghost predicate MovesBits<T(!new)>(w: Words<T>) {
    w.down(w.zero) == w.zero && forall a, b {:trigger MovesBit(w, a, b)} :: MovesBit(w, a, b)
  }

  lemma {:induction false} NoData<T(!new)>(w: Words<T>, n: nat)
    requires w.down(w.zero) == w.zero
    ensures Moved(w, w.zero, n) == w.zero
  {
    if n > 0 {
      NoData(w, n - 1);
    }
  }

  lemma TakesNext<T(!new)>(w: Words<T>, r: T, l: T, m: T)
    requires TakesData(w) && m == w.xor(r, l)
    ensures Step(w, m, l) == w.xor(Step(w, r, w.zero), w.down(l))
  {
    assert TakesBit(w, r, l);
  }

  lemma MovesNext<T(!new)>(w: Words<T>, r: T, l: T, m: T)
    requires MovesBits(w) && !w.odd(l) && m == w.xor(r, l)
    ensures Step(w, m, w.zero) == w.xor(Step(w, r, w.zero), w.down(l))
  {
    assert MovesBit(w, r, l);
  }

  lemma {:induction false} DataFirst<T(!new)>(w: Words<T>, x: T, b: T, n: nat)
    requires TakesData(w)
    ensures Run(w, w.xor(x, b), b, n) == w.xor(Run(w, x, w.zero, n), Moved(w, b, n))
  {
    if n > 0 {
      DataFirst(w, x, b, n - 1);
      NoData(w, n - 1);
      TakesNext(w, Run(w, x, w.zero, n - 1), Moved(w, b, n - 1), Run(w, w.xor(x, b), b, n - 1));
    }
  }

  lemma {:induction false} HighPartMoves<T(!new)>(w: Words<T>, x: T, h: T, n: nat)
    requires MovesBits(w) && forall k: nat | k < n :: !w.odd(Moved(w, h, k))
    ensures Run(w, w.xor(x, h), w.zero, n) == w.xor(Run(w, x, w.zero, n), Moved(w, h, n))
  {
    if n > 0 {
      HighPartMoves(w, x, h, n - 1);
      NoData(w, n - 1);
      MovesNext(w, Run(w, x, w.zero, n - 1), Moved(w, h, n - 1), Run(w, w.xor(x, h), w.zero, n - 1));
    }
  }

  lemma DataStep<T>(w: Words<T>, a: T, b: T)
    requires w.xor(w.xor(a, b), b) == a == w.xor(a, w.zero) && w.down(w.xor(a, b)) == w.xor(w.down(a), w.down(b))
    requires w.xor(w.xor(w.down(a), w.down(b)), w.out(a)) == w.xor(w.xor(w.down(a), w.out(a)), w.down(b))
    ensures TakesBit(w, a, b)
  {
  }

  lemma HighStep<T>(w: Words<T>, a: T, b: T)
    requires w.xor(w.xor(a, b), w.zero) == w.xor(a, b) && w.xor(a, w.zero) == a && w.out(w.xor(a, b)) == w.out(a)
    requires w.down(w.xor(a, b)) == w.xor(w.down(a), w.down(b))
    requires w.xor(w.xor(w.down(a), w.down(b)), w.out(a)) == w.xor(w.xor(w.down(a), w.out(a)), w.down(b))
    ensures MovesBit(w, a, b)
  {
  }

  // ---------------------------------------------------------------------
  // Words of 16 bits
  // ---------------------------------------------------------------------

  function Xor(a: bv16, b: bv16): bv16 {
    a ^ b
  }

  function Down(b: bv16): bv16 {
    b >> 1
  }

  predicate Odd(b: bv16) {
    b & 1 == 1
  }

  /** The polynomial, when a one falls out. */
  function Out(x: bv16): bv16 {
    if x & 1 == 1 then POLY else 0
  }

  const BITS := Words(Xor, Down, Out, Odd, 0)

  lemma XorZero(a: bv16)
    ensures Xor(a, 0) == a && Down(0) == 0
  {
  }

  lemma XorTwice(a: bv16, b: bv16)
    ensures Xor(Xor(a, b), b) == a
  {
  }

  lemma XorSwap(a: bv16, b: bv16, c: bv16)
    ensures Xor(Xor(a, b), c) == Xor(Xor(a, c), b)
  {
  }

  lemma XorCommutes(a: bv16, b: bv16)
    ensures Xor(a, b) == Xor(b, a)
  {
  }

  lemma DownXor(a: bv16, b: bv16)
    ensures Down(Xor(a, b)) == Xor(Down(a), Down(b))
  {
  }

  lemma SameOut(a: bv16, b: bv16)
    requires !Odd(b)
    ensures Out(Xor(a, b)) == Out(a)
  {
  }

  lemma TakesDataBit(a: bv16, b: bv16)
    ensures TakesBit(BITS, a, b)
  {
    XorZero(a);
    XorTwice(a, b);
    DownXor(a, b);
    XorSwap(Down(a), Down(b), Out(a));
    DataStep(BITS, a, b);
  }

  lemma MovesHighBit(a: bv16, b: bv16)
    requires !Odd(b)
    ensures MovesBit(BITS, a, b)
  {
    XorZero(a);
    XorZero(Xor(a, b));
    SameOut(a, b);
    DownXor(a, b);
    XorSwap(Down(a), Down(b), Out(a));
    HighStep(BITS, a, b);
  }

  lemma BitsAreLinear()
    ensures TakesData(BITS) && MovesBits(BITS)
  {
    XorZero(0);
    forall a, b
      ensures TakesBit(BITS, a, b)
    {
      TakesDataBit(a, b);
    }
    forall a, b
      ensures MovesBit(BITS, a, b)
    {
      if !Odd(b) {
        MovesHighBit(a, b);
      }
    }
  }

  // ---------------------------------------------------------------------
  // Bit by bit
  // ---------------------------------------------------------------------

  /** One bit: the register moves down, and takes the polynomial when the two
      low bits differ. */
  function BitStep(crc: bv16, b: bv16): bv16 {
    (crc >> 1) ^ Out(crc ^ b)
  }

  lemma StepIsBitStep(crc: bv16, b: bv16)
    ensures Step(BITS, crc, b) == BitStep(crc, b)
  {
  }

  /** The data after n bits, and the register. */
  function Left(b: bv16, n: nat): bv16 {
    Moved(BITS, b, n)
  }

  function Register(crc: bv16, b: bv16, n: nat): bv16 {
    Run(BITS, crc, b, n)
  }

  /** The checksum. */
  function Checksum(data: seq<bv8>): bv16 {
    if data == [] then START else Register(Checksum(data[..|data| - 1]), data[|data| - 1] as bv16, 8)
  }

  lemma OneBit(crc: bv16, b: bv16, n: nat)
    ensures Register(crc, b, n + 1) == BitStep(Register(crc, b, n), Left(b, n))
    ensures Left(b, n + 1) == Left(b, n) >> 1
  {
  }

  lemma OneByte(data: seq<bv8>, i: nat)
    requires i < |data|
    ensures Checksum(data[..i + 1]) == Register(Checksum(data[..i]), data[i] as bv16, 8)
  {
    assert data[..i + 1][..i] == data[..i];
  }

  lemma NextBit(crc: bv16, b: bv16, n: nat, r: bv16, m: bv16)
    requires Register(crc, b, n) == r && Left(b, n) == m
    ensures Register(crc, b, n + 1) == BitStep(r, m) && Left(b, n + 1) == m >> 1
  {
    OneBit(crc, b, n);
  }

  lemma OfFirst()
    ensures Register(0xFFFF, 2, 8) == 0x813E
  {
    NextBit(0xFFFF, 2, 0, 0xFFFF, 2);
    NextBit(0xFFFF, 2, 1, 0xDFFE, 1);
    NextBit(0xFFFF, 2, 2, 0xCFFE, 0);
    NextBit(0xFFFF, 2, 3, 0x67FF, 0);
    NextBit(0xFFFF, 2, 4, 0x93FE, 0);
    NextBit(0xFFFF, 2, 5, 0x49FF, 0);
    NextBit(0xFFFF, 2, 6, 0x84FE, 0);
    NextBit(0xFFFF, 2, 7, 0x427F, 0);
  }

  lemma OfSecond()
    ensures Register(0x813E, 7, 8) == 0x1241
  {
    NextBit(0x813E, 7, 0, 0x813E, 7);
    NextBit(0x813E, 7, 1, 0xE09E, 3);
    NextBit(0x813E, 7, 2, 0xD04E, 1);
    NextBit(0x813E, 7, 3, 0xC826, 0);
    NextBit(0x813E, 7, 4, 0x6413, 0);
    NextBit(0x813E, 7, 5, 0x9208, 0);
    NextBit(0x813E, 7, 6, 0x4904, 0);
    NextBit(0x813E, 7, 7, 0x2482, 0);
  }

  /** The example of the specification of MODBUS over serial lines: the frame 02 07
      has the checksum 1241. */
  lemma OfTwo()
    ensures Checksum([2, 7]) == 0x1241
  {
    OfFirst();
    OfSecond();
    assert [2, 7][..1] == [2] && [2][..0] == [];
  }

  method Crc16Telink(data: seq<bv8>) returns (crc: bv16)
    ensures crc == Checksum(data)
  {
    crc := START;
    var i := 0;
    while i < |data|
      invariant 0 <= i <= |data| && crc == Checksum(data[..i])
    {
      OneByte(data, i);
      crc := EightBits(crc, data[i] as bv16);
      i := i + 1;
    }
    assert data[..i] == data;
  }

  method EightBits(start: bv16, data: bv16) returns (crc: bv16)
    ensures crc == Register(start, data, 8)
  {
    crc := start;
    var b, bit := data, 0;
    while bit < 8
      invariant 0 <= bit <= 8
      invariant crc == Register(start, data, bit) && b == Left(data, bit)
    {
      OneBit(start, data, bit);
      crc, b := BitStep(crc, b), b >> 1;
      bit := bit + 1;
    }
  }

  // ---------------------------------------------------------------------
  // A byte at a time
  // ---------------------------------------------------------------------

  lemma NextShift(b: bv16, n: nat, x: bv16)
    requires n > 0 && Left(b, n - 1) == x
    ensures Left(b, n) == Down(x)
  {
  }

  lemma Shifts(b: bv16)
    ensures Down(b) == b >> 1 && Down(b >> 1) == b >> 2 && Down(b >> 2) == b >> 3 && Down(b >> 3) == b >> 4
    ensures Down(b >> 4) == b >> 5 && Down(b >> 5) == b >> 6 && Down(b >> 6) == b >> 7 && Down(b >> 7) == b >> 8
  {
  }

  lemma LeftIsShift(b: bv16)
    ensures Left(b, 1) == b >> 1 && Left(b, 2) == b >> 2 && Left(b, 3) == b >> 3 && Left(b, 4) == b >> 4
    ensures Left(b, 5) == b >> 5 && Left(b, 6) == b >> 6 && Left(b, 7) == b >> 7 && Left(b, 8) == b >> 8
  {
    Shifts(b);
    NextShift(b, 1, b);
    NextShift(b, 2, b >> 1);
    NextShift(b, 3, b >> 2);
    NextShift(b, 4, b >> 3);
    NextShift(b, 5, b >> 4);
    NextShift(b, 6, b >> 5);
    NextShift(b, 7, b >> 6);
    NextShift(b, 8, b >> 7);
  }

  lemma LowByteClear(h: bv16)
    requires h & 0xFF == 0
    ensures !Odd(h) && !Odd(h >> 1) && !Odd(h >> 2) && !Odd(h >> 3)
    ensures !Odd(h >> 4) && !Odd(h >> 5) && !Odd(h >> 6) && !Odd(h >> 7)
  {
  }

  lemma HighByteMoves(h: bv16)
    requires h & 0xFF == 0
    ensures forall k: nat | k < 8 :: !BITS.odd(Moved(BITS, h, k))
  {
    LeftIsShift(h);
    LowByteClear(h);
  }

  lemma Halves(x: bv16)
    ensures x == Xor(x & 0xFF, x & 0xFF00) && (x & 0xFF00) & 0xFF == 0 && (x & 0xFF00) >> 8 == x >> 8
  {
  }

  lemma ByteMeets(c: bv16, b: bv16)
    requires b & 0xFF00 == 0
    ensures b >> 8 == 0 && Xor(c, b) & 0xFF == (c & 0xFF) ^ b && Xor(c, b) >> 8 == c >> 8
  {
  }

  lemma ByteHasNoHighBits(b: bv8)
    ensures (b as bv16) & 0xFF00 == 0
  {
  }

  /** A whole byte: the high byte moves down, and the low byte, met with the
      data, takes what eight steps make of it. */
  lemma ByteStep(crc: bv16, b: bv16)
    requires b & 0xFF00 == 0
    ensures Register(crc, b, 8) == Xor(Register((crc & 0xFF) ^ b, 0, 8), crc >> 8)
  {
    var x := Xor(crc, b);
    ByteMeets(crc, b);
    DataMeets(crc, b);
    RegisterHalves(x);
  }

  lemma DataMeets(crc: bv16, b: bv16)
    requires b >> 8 == 0
    ensures Register(crc, b, 8) == Register(Xor(crc, b), 0, 8)
  {
    BitsAreLinear();
    XorTwice(crc, b);
    DataFirst(BITS, Xor(crc, b), b, 8);
    LeftIsShift(b);
    XorZero(Register(Xor(crc, b), 0, 8));
  }

  lemma RegisterHalves(x: bv16)
    ensures Register(x, 0, 8) == Xor(Register(x & 0xFF, 0, 8), x >> 8)
  {
    var h := x & 0xFF00;
    Halves(x);
    BitsAreLinear();
    HighByteMoves(h);
    HighPartMoves(BITS, x & 0xFF, h, 8);
    LeftIsShift(h);
  }

  /** Eight steps of the register alone. */
  function Step8(x: bv16): bv16 {
    var a := BitStep(BitStep(BitStep(BitStep(x, 0), 0), 0), 0);
    BitStep(BitStep(BitStep(BitStep(a, 0), 0), 0), 0)
  }

  lemma NextStep(x: bv16, n: nat)
    ensures Register(x, 0, n + 1) == BitStep(Register(x, 0, n), 0)
  {
    XorZero(0);
    NoData(BITS, n);
    StepIsBitStep(Register(x, 0, n), 0);
  }

  lemma EightSteps(x: bv16)
    ensures Register(x, 0, 8) == Step8(x)
  {
    NextStep(x, 0);
    NextStep(x, 1);
    NextStep(x, 2);
    NextStep(x, 3);
    NextStep(x, 4);
    NextStep(x, 5);
    NextStep(x, 6);
    NextStep(x, 7);
  }

  // ---------------------------------------------------------------------
  // The table
  // ---------------------------------------------------------------------

  const ROW0: seq<bv16> := [0, 49345, 49537, 320, 49921, 960, 640, 49729]
  const ROW1: seq<bv16> := [50689, 1728, 1920, 51009, 1280, 50625, 50305, 1088]
  const ROW2: seq<bv16> := [52225, 3264, 3456, 52545, 3840, 53185, 52865, 3648]
  const ROW3: seq<bv16> := [2560, 51905, 52097, 2880, 51457, 2496, 2176, 51265]
  const ROW4: seq<bv16> := [55297, 6336, 6528, 55617, 6912, 56257, 55937, 6720]
  const ROW5: seq<bv16> := [7680, 57025, 57217, 8000, 56577, 7616, 7296, 56385]
  const ROW6: seq<bv16> := [5120, 54465, 54657, 5440, 55041, 6080, 5760, 54849]
  const ROW7: seq<bv16> := [53761, 4800, 4992, 54081, 4352, 53697, 53377, 4160]
  const ROW8: seq<bv16> := [61441, 12480, 12672, 61761, 13056, 62401, 62081, 12864]
  const ROW9: seq<bv16> := [13824, 63169, 63361, 14144, 62721, 13760, 13440, 62529]
  const ROW10: seq<bv16> := [15360, 64705, 64897, 15680, 65281, 16320, 16000, 65089]
  const ROW11: seq<bv16> := [64001, 15040, 15232, 64321, 14592, 63937, 63617, 14400]
  const ROW12: seq<bv16> := [10240, 59585, 59777, 10560, 60161, 11200, 10880, 59969]
  const ROW13: seq<bv16> := [60929, 11968, 12160, 61249, 11520, 60865, 60545, 11328]
  const ROW14: seq<bv16> := [58369, 9408, 9600, 58689, 9984, 59329, 59009, 9792]
  const ROW15: seq<bv16> := [8704, 58049, 58241, 9024, 57601, 8640, 8320, 57409]
  const ROW16: seq<bv16> := [40961, 24768, 24960, 41281, 25344, 41921, 41601, 25152]
  const ROW17: seq<bv16> := [26112, 42689, 42881, 26432, 42241, 26048, 25728, 42049]
  const ROW18: seq<bv16> := [27648, 44225, 44417, 27968, 44801, 28608, 28288, 44609]
  const ROW19: seq<bv16> := [43521, 27328, 27520, 43841, 26880, 43457, 43137, 26688]
  const ROW20: seq<bv16> := [30720, 47297, 47489, 31040, 47873, 31680, 31360, 47681]
  const ROW21: seq<bv16> := [48641, 32448, 32640, 48961, 32000, 48577, 48257, 31808]
  const ROW22: seq<bv16> := [46081, 29888, 30080, 46401, 30464, 47041, 46721, 30272]
  const ROW23: seq<bv16> := [29184, 45761, 45953, 29504, 45313, 29120, 28800, 45121]
  const ROW24: seq<bv16> := [20480, 37057, 37249, 20800, 37633, 21440, 21120, 37441]
  const ROW25: seq<bv16> := [38401, 22208, 22400, 38721, 21760, 38337, 38017, 21568]
  const ROW26: seq<bv16> := [39937, 23744, 23936, 40257, 24320, 40897, 40577, 24128]
  const ROW27: seq<bv16> := [23040, 39617, 39809, 23360, 39169, 22976, 22656, 38977]
  const ROW28: seq<bv16> := [34817, 18624, 18816, 35137, 19200, 35777, 35457, 19008]
  const ROW29: seq<bv16> := [19968, 36545, 36737, 20288, 36097, 19904, 19584, 35905]
  const ROW30: seq<bv16> := [17408, 33985, 34177, 17728, 34561, 18368, 18048, 34369]
  const ROW31: seq<bv16> := [33281, 17088, 17280, 33601, 16640, 33217, 32897, 16448]

  const QUARTER0: seq<bv16> := ROW0 + ROW1 + ROW2 + ROW3 + ROW4 + ROW5 + ROW6 + ROW7
  const QUARTER1: seq<bv16> := ROW8 + ROW9 + ROW10 + ROW11 + ROW12 + ROW13 + ROW14 + ROW15
  const QUARTER2: seq<bv16> := ROW16 + ROW17 + ROW18 + ROW19 + ROW20 + ROW21 + ROW22 + ROW23
  const QUARTER3: seq<bv16> := ROW24 + ROW25 + ROW26 + ROW27 + ROW28 + ROW29 + ROW30 + ROW31

  const TABLE: seq<bv16> := QUARTER0 + QUARTER1 + QUARTER2 + QUARTER3

  lemma Quarter0(x: bv16)
    requires x & 0xFFC0 == 0
    ensures |QUARTER0| == 64 && 0 <= x as nat < 64 && QUARTER0[x as nat - 0] == Step8(x)
  {
  }

  lemma Quarter1(x: bv16)
    requires x & 0xFFC0 == 64
    ensures |QUARTER1| == 64 && 64 <= x as nat < 128 && QUARTER1[x as nat - 64] == Step8(x)
  {
  }

  lemma Quarter2(x: bv16)
    requires x & 0xFFC0 == 128
    ensures |QUARTER2| == 64 && 128 <= x as nat < 192 && QUARTER2[x as nat - 128] == Step8(x)
  {
  }

  lemma Quarter3(x: bv16)
    requires x & 0xFFC0 == 192
    ensures |QUARTER3| == 64 && 192 <= x as nat < 256 && QUARTER3[x as nat - 192] == Step8(x)
  {
  }

  lemma OneOfFourQuarters(x: bv16)
    requires x & 0xFF00 == 0
    ensures x & 0xFFC0 == 0 || x & 0xFFC0 == 64 || x & 0xFFC0 == 128 || x & 0xFFC0 == 192
  {
  }

  lemma AtIndex(a: seq<bv16>, b: seq<bv16>, c: seq<bv16>, d: seq<bv16>, n: nat, v: bv16)
    requires |a| == |b| == |c| == |d| == 64
    requires || (n < 64 && a[n] == v) || (64 <= n < 128 && b[n - 64] == v)
             || (128 <= n < 192 && c[n - 128] == v) || (192 <= n < 256 && d[n - 192] == v)
    ensures |a + b + c + d| == 256 && n < 256 && (a + b + c + d)[n] == v
  {
  }

  lemma InSomeQuarter(x: bv16)
    requires x & 0xFF00 == 0
    ensures |QUARTER0| == |QUARTER1| == |QUARTER2| == |QUARTER3| == 64
    ensures var n := x as nat;
            || (n < 64 && QUARTER0[n] == Step8(x)) || (64 <= n < 128 && QUARTER1[n - 64] == Step8(x))
            || (128 <= n < 192 && QUARTER2[n - 128] == Step8(x)) || (192 <= n < 256 && QUARTER3[n - 192] == Step8(x))
  {
    OneOfFourQuarters(x);
    if x & 0xFFC0 == 0 {
      Quarter0(x);
    } else if x & 0xFFC0 == 64 {
      Quarter1(x);
    } else if x & 0xFFC0 == 128 {
      Quarter2(x);
    } else {
      Quarter3(x);
    }
  }

  /** All 256 entries are what eight steps of the register make of their index. */
  lemma TableIsRight(x: bv16)
    requires x & 0xFF00 == 0
    ensures x as nat < |TABLE| == 256 && TABLE[x as nat] == Step8(x)
  {
    InSomeQuarter(x);
    AtIndex(QUARTER0, QUARTER1, QUARTER2, QUARTER3, x as nat, Step8(x));
  }

  lemma IndexIsAByte(crc: bv16, b: bv16)
    requires b & 0xFF00 == 0
    ensures ((crc & 0xFF) ^ b) & 0xFF00 == 0
  {
  }

  /** The table gives the same checksum for every byte string. */
  method Crc16Modbus(data: seq<bv8>, length: nat) returns (r: Option<bv16>)
    ensures r == if length <= |data| then Some(Checksum(data[..length])) else None
  {
    if length > |data| {
      return None;
    }
    var crc := START;
    var i := 0;
    while i < length
      invariant 0 <= i <= length && crc == Checksum(data[..i])
    {
      OneByte(data, i);
      crc := TableStep(crc, data[i]);
      i := i + 1;
    }
    return Some(crc);
  }

  lemma TableEntry(crc: bv16, b: bv16)
    requires b & 0xFF00 == 0
    ensures var index := ((crc & 0xFF) ^ b) as nat;
            index < |TABLE| && Register(crc, b, 8) == Xor(crc >> 8, TABLE[index])
  {
    var x := (crc & 0xFF) ^ b;
    IndexIsAByte(crc, b);
    TableIsRight(x);
    EightSteps(x);
    ByteStep(crc, b);
    XorCommutes(crc >> 8, Step8(x));
  }

  method TableStep(crc: bv16, b: bv8) returns (r: bv16)
    ensures r == Register(crc, b as bv16, 8)
  {
    ByteHasNoHighBits(b);
    TableEntry(crc, b as bv16);
    var index := ((crc & 0xFF) ^ (b as bv16)) as nat;
    r := Xor(crc >> 8, TABLE[index]);
  }
}
