/** The checksum of the serial framing: CRC-16 with the polynomial 0x1021,
    starting at 0, high bit first. */
module Checksum {
  import opened Bytes
  import opened Gf2

  const POLY: nat := 0x1021
  const DIVISOR: nat := 0x1_1021   // the polynomial with its highest power

  /** One bit of the register. */
  function Turn(crc: nat): (r: nat)
    ensures r < 0x1_0000
  {
    if crc / 0x8000 % 2 == 1 then Xor(crc * 2, POLY) % 0x1_0000 else crc * 2 % 0x1_0000
  }

  function Turns(crc: nat, n: nat): (r: nat)
    requires crc < 0x1_0000
    ensures r < 0x1_0000
  {
    if n == 0 then crc else Turn(Turns(crc, n - 1))
  }

  function Crc(data: Bytes): (r: nat)
    ensures r < 0x1_0000
  {
    if data == [] then 0
    else
      var crc, b := Crc(data[..|data| - 1]), data[|data| - 1] as nat;
      ByteFits(crc, b);
      Turns(Xor(crc, b * 0x100), 8)
  }

  lemma ByteFits(crc: nat, b: nat)
    requires crc < 0x1_0000 && b < 0x100
    ensures Xor(crc, b * 0x100) < 0x1_0000
  {
    Sixteen();
    XorBound(crc, b * 0x100, 16);
  }

  method Crc16(data: Bytes) returns (crc: nat)
    ensures crc == Crc(data)
  {
    crc := 0;
    for i := 0 to |data|
      invariant crc == Crc(data[..i])
    {
      assert data[..i + 1][..i] == data[..i];
      ByteFits(crc, data[i] as nat);
      crc := Xor(crc, data[i] as nat * 0x100);
      ghost var start := crc;
      for k := 0 to 8
        invariant crc == Turns(start, k)
      {
        crc := (if crc / 0x8000 % 2 == 1 then Xor(crc * 2, 0x1021) else crc * 2) % 0x1_0000;
      }
    }
    assert data[..|data|] == data;
  }

  // ---------------------------------------------------------------------
  // What it computes
  // ---------------------------------------------------------------------

  /** The data as one number, the first byte highest. */
  function Number(data: Bytes): nat {
    if data == [] then 0 else Up(Number(data[..|data| - 1]), 8) + data[|data| - 1] as nat
  }

  lemma Sixteen()
    ensures Pow2(16) == 0x1_0000 && Pow2(17) == 0x2_0000 && Pow2(8) == 0x100
  {
  }

  lemma ByteUp(b: nat)
    ensures Up(b, 8) == b * 0x100
  {
    assert Up(b, 1) == 2 * b && Up(b, 2) == 4 * b;
    assert Up(b, 3) == 8 * b && Up(b, 4) == 16 * b;
    assert Up(b, 5) == 32 * b && Up(b, 6) == 64 * b;
    assert Up(b, 7) == 128 * b;
  }

  /** The highest bit falls out, and the rest meets the polynomial. */
  lemma TurnIs(crc: nat)
    requires crc < 0x1_0000
    ensures if crc < 0x8000 then Turn(crc) == 2 * crc
            else Turn(crc) == Xor(2 * crc - 0x1_0000, POLY) && Xor(Turn(crc), 2 * crc) == DIVISOR
  {
    TopBit(crc);
    if crc >= 0x8000 {
      Sixteen();
      TopOff(2 * crc, POLY, 0x1_0000, 16);
      Lowered(Xor(2 * crc - 0x1_0000, POLY));
    }
  }

  lemma Lowered(x: nat)
    requires x < 0x1_0000
    ensures (0x1_0000 + x) % 0x1_0000 == x
  {
  }

  lemma TopBit(crc: nat)
    requires crc < 0x1_0000
    ensures crc / 0x8000 % 2 == (if crc < 0x8000 then 0 else 1) && (crc < 0x8000 ==> crc * 2 % 0x1_0000 == 2 * crc)
  {
  }

  lemma TurnAlike(crc: nat)
    requires crc < 0x1_0000
    ensures Alike(Turn(crc), 2 * crc, DIVISOR)
  {
    TurnIs(crc);
    if crc < 0x8000 {
      XorSelf(2 * crc);
      assert Xor(Turn(crc), 2 * crc) == Times(0, DIVISOR);
    } else {
      TimesOne(DIVISOR);
      assert Xor(Turn(crc), 2 * crc) == Times(1, DIVISOR);
    }
  }

  lemma {:induction false} TurnsAlike(crc: nat, n: nat)
    requires crc < 0x1_0000
    ensures Alike(Turns(crc, n), Up(crc, n), DIVISOR)
  {
    if n == 0 {
      XorSelf(crc);
      assert Xor(crc, crc) == Times(0, DIVISOR);
    } else {
      var r := Turns(crc, n - 1);
      TurnsAlike(crc, n - 1);
      TurnAlike(r);
      AlikeTwice(r, Up(crc, n - 1), DIVISOR);
      AlikeOn(Turn(r), 2 * r, Up(crc, n), DIVISOR);
    }
  }

  lemma {:induction false} AlikeUp(a: nat, b: nat, k: nat)
    requires Alike(a, b, DIVISOR)
    ensures Alike(Up(a, k), Up(b, k), DIVISOR)
  {
    if k > 0 {
      AlikeUp(a, b, k - 1);
      AlikeTwice(Up(a, k - 1), Up(b, k - 1), DIVISOR);
    }
  }

  /** A byte joins at the low end. */
  lemma NextByte(n: nat, b: nat)
    requires b < 0x100
    ensures Up(Xor(Up(n, 16), b * 0x100), 8) == Up(Up(n, 8) + b, 16)
  {
    ByteUp(b);
    UpAgain(n, 8, 8);
    XorUp(Up(n, 8), b, 8);
    LowPart(n, b, 8);
    UpAgain(Up(n, 8) + b, 8, 8);
  }

  /** Two sums without carries. */
  lemma XorUp(a: nat, b: nat, k: nat)
    ensures Xor(Up(a, k), Up(b, k)) == Up(Xor(a, b), k)
  {
    PowPositive(k);
    XorZero(0);
    XorParts(a, b, 0, 0, k);
  }

  lemma LowPart(a: nat, b: nat, k: nat)
    requires b < Pow2(k)
    ensures Xor(Up(a, k), b) == Up(a, k) + b
  {
    UpNothing(k);
    XorZero(a);
    XorZero(b);
    XorParts(a, 0, 0, b, k);
  }

  lemma {:induction false} PowPositive(k: nat)
    ensures Pow2(k) > 0
  {
    if k > 0 {
      PowPositive(k - 1);
    }
  }

  lemma {:induction false} CrcAlike(data: Bytes)
    ensures Alike(Crc(data), Up(Number(data), 16), DIVISOR)
  {
    if data == [] {
      UpNothing(16);
      XorZero(0);
      assert Xor(0, 0) == Times(0, DIVISOR);
    } else {
      var most, b := data[..|data| - 1], data[|data| - 1] as nat;
      CrcAlike(most);
      ByteFits(Crc(most), b);
      ByteAlike(Crc(most), Number(most), b);
    }
  }

  lemma ByteAlike(crc: nat, n: nat, b: nat)
    requires crc < 0x1_0000 && b < 0x100 && Alike(crc, Up(n, 16), DIVISOR)
    requires Xor(crc, b * 0x100) < 0x1_0000
    ensures Alike(Turns(Xor(crc, b * 0x100), 8), Up(Up(n, 8) + b, 16), DIVISOR)
  {
    var x := b * 0x100;
    AlikePlus(crc, Up(n, 16), x, DIVISOR);
    AlikeUp(Xor(crc, x), Xor(Up(n, 16), x), 8);
    TurnsAlike(Xor(crc, x), 8);
    NextByte(n, b);
    AlikeOn(Turns(Xor(crc, x), 8), Up(Xor(crc, x), 8), Up(Up(n, 8) + b, 16), DIVISOR);
  }

  /** The checksum is the remainder of the data, with sixteen zeros behind it,
      under the polynomial. */
  lemma CrcIsRemainder(data: Bytes, r: nat)
    ensures r == Crc(data) <==> Leaves(Up(Number(data), 16), DIVISOR, 16, r)
  {
    Sixteen();
    CrcAlike(data);
    AlikeLeaves(Up(Number(data), 16), Crc(data), DIVISOR, 16);
    if Leaves(Up(Number(data), 16), DIVISOR, 16, r) {
      RemainderIsUnique(Up(Number(data), 16), DIVISOR, 16, r, Crc(data));
    }
  }

  // ---------------------------------------------------------------------
  // What follows
  // ---------------------------------------------------------------------

  /** The high byte and the low byte. */
  function Big(n: nat): (r: Bytes)
    requires n < 0x1_0000
    ensures |r| == 2
  {
    [(n / 0x100) as byte, (n % 0x100) as byte]
  }

  lemma NumberOfTwo(data: Bytes, n: nat)
    requires n < 0x1_0000
    ensures Number(data + Big(n)) == Up(Number(data), 16) + n
  {
    var one, two := data + [Big(n)[0]], data + Big(n);
    assert two[..|two| - 1] == one && one[..|one| - 1] == data;
    var h := n / 0x100;
    Sixteen();
    UpSum(Up(Number(data), 8), h, 8);
    ByteUp(h);
    UpAgain(Number(data), 8, 8);
  }

  lemma {:induction false} UpSum(a: nat, b: nat, k: nat)
    ensures Up(a + b, k) == Up(a, k) + Up(b, k)
  {
    if k > 0 {
      UpSum(a, b, k - 1);
    }
  }

  lemma {:induction false} MultipleUp(q: nat, k: nat)
    ensures Up(Times(q, DIVISOR), k) == Times(Up(q, k), DIVISOR)
  {
    if k > 0 {
      MultipleUp(q, k - 1);
      TimesTwice(Up(q, k - 1), DIVISOR);
    }
  }

  lemma WithRemainder(n: nat, crc: nat, q: nat)
    requires crc < 0x1_0000 && Up(n, 16) == Xor(Times(q, DIVISOR), crc)
    ensures Up(n, 16) + crc == Times(q, DIVISOR)
  {
    Sixteen();
    XorMoves(Times(q, DIVISOR), crc, Up(n, 16));
    LowPart(n, crc, 16);
  }

  lemma MultipleLeavesNothing(v: nat, q: nat)
    requires v == Times(q, DIVISOR)
    ensures Leaves(Up(v, 16), DIVISOR, 16, 0)
  {
    PowPositive(16);
    MultipleUp(q, 16);
    XorZero(Times(Up(q, 16), DIVISOR));
    assert Up(v, 16) == Xor(Times(Up(q, 16), DIVISOR), 0);
  }

  /** Data with its own checksum behind it has the checksum 0. */
  lemma CheckedLeavesNothing(data: Bytes)
    ensures Crc(data + Big(Crc(data))) == 0
  {
    var crc, n := Crc(data), Number(data);
    CrcIsRemainder(data, crc);
    var q: nat :| Up(n, 16) == Xor(Times(q, DIVISOR), crc);
    WithRemainder(n, crc, q);
    NumberOfTwo(data, crc);
    MultipleLeavesNothing(Number(data + Big(crc)), q);
    CrcIsRemainder(data + Big(crc), 0);
  }

  lemma TurnIsOneToOne(a: nat, b: nat)
    requires a < 0x1_0000 && b < 0x1_0000 && Turn(a) == Turn(b)
    ensures a == b
  {
    TurnParity(a);
    TurnParity(b);
    if a >= 0x8000 {
      HighTurns(a, b);
    } else {
      TurnIs(a);
      TurnIs(b);
    }
  }

  lemma HighTurns(a: nat, b: nat)
    requires 0x8000 <= a < 0x1_0000 && 0x8000 <= b < 0x1_0000 && Turn(a) == Turn(b)
    ensures a == b
  {
    var x, y, p := 2 * a - 0x1_0000, 2 * b - 0x1_0000, POLY;
    assert Xor(x, p) == Turn(a) by {
      TurnIs(a);
    }
    assert Xor(y, p) == Turn(b) by {
      TurnIs(b);
    }
    XorRight(x, y, p);
  }

  lemma XorRight(a: nat, b: nat, c: nat)
    requires Xor(a, c) == Xor(b, c)
    ensures a == b
  {
    XorMoves(a, c, Xor(b, c));
    XorMoves(b, c, Xor(b, c));
  }

  lemma TurnParity(a: nat)
    requires a < 0x1_0000
    ensures Turn(a) % 2 == 1 <==> a >= 0x8000
  {
    TurnIs(a);
    if a >= 0x8000 {
      OddSum(a - 0x8000, POLY);
    }
  }

  lemma OddSum(a: nat, p: nat)
    requires p % 2 == 1
    ensures Xor(2 * a, p) % 2 == 1
  {
    XorNext(a, p / 2, 0, 1);
  }

  lemma {:induction false} TurnsAreOneToOne(a: nat, b: nat, n: nat)
    requires a < 0x1_0000 && b < 0x1_0000 && Turns(a, n) == Turns(b, n)
    ensures a == b
  {
    if n > 0 {
      TurnIsOneToOne(Turns(a, n - 1), Turns(b, n - 1));
      TurnsAreOneToOne(a, b, n - 1);
    }
  }

  /** Changing one byte changes the checksum. */
  lemma {:induction false} OneByteCounts(a: Bytes, b: Bytes, i: nat)
    requires |a| == |b| && i < |a| && a[i] != b[i] && forall j: nat | j < |a| && j != i :: a[j] == b[j]
    ensures Crc(a) != Crc(b)
    decreases |a|
  {
    var n := |a| - 1;
    var c, d, x, y := Crc(a[..n]), Crc(b[..n]), a[n] as nat * 0x100, b[n] as nat * 0x100;
    ByteFits(c, a[n] as nat);
    ByteFits(d, b[n] as nat);
    if i < n {
      OneByteCounts(a[..n], b[..n], i);
    } else {
      assert a[..n] == b[..n];
    }
    if Crc(a) == Crc(b) {
      TurnsAreOneToOne(Xor(c, x), Xor(d, y), 8);
      if i < n {
        XorRight(c, d, x);
      } else {
        XorCommutes(c, x);
        XorCommutes(c, y);
        XorRight(x, y, c);
      }
    }
  }

  lemma NextCrc(data: Bytes, b: byte, crc: nat)
    requires Crc(data) == crc
    ensures Xor(crc, b as nat * 0x100) < 0x1_0000 && Crc(data + [b]) == Turns(Xor(crc, b as nat * 0x100), 8)
  {
    assert (data + [b])[..|data|] == data;
    ByteFits(crc, b as nat);
  }

  /** The packet of the single byte 1. */
  lemma OfOne()
    ensures Crc([1]) == 0x1021
  {
    NextCrc([], 1, 0);
    assert [] + [1] == [1];
    XorZero(0x100);
    TurnIs(0x100);
    TurnIs(0x200);
    TurnIs(0x400);
    TurnIs(0x800);
    TurnIs(0x1000);
    TurnIs(0x2000);
    TurnIs(0x4000);
    TurnIs(0x8000);
    XorZero(POLY);
    EightTurns(0x100);
  }

  lemma EightTurns(c: nat)
    requires c < 0x1_0000
    ensures Turns(c, 8) == Turn(Turn(Turn(Turn(Turn(Turn(Turn(Turn(c))))))))
  {
    assert Turns(c, 1) == Turn(c);
    assert Turns(c, 2) == Turn(Turns(c, 1)) && Turns(c, 3) == Turn(Turns(c, 2));
    assert Turns(c, 4) == Turn(Turns(c, 3)) && Turns(c, 5) == Turn(Turns(c, 4));
    assert Turns(c, 6) == Turn(Turns(c, 5)) && Turns(c, 7) == Turn(Turns(c, 6));
  }
}
