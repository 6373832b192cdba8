/** Base64, section 4 of RFC 4648, as the host's library encodes it, and
    decodes it: characters outside the alphabet are skipped. */
module Base64 {
  import opened Wrappers
  import opened Bytes

  const PAD: byte := 61

  function Letter(v: nat): byte
    requires v < 64
  {
    if v < 26 then (65 + v) as byte
    else if v < 52 then (97 + (v - 26)) as byte
    else if v < 62 then (48 + (v - 52)) as byte
    else if v == 62 then 43
    else 47
  }

  function Value(c: byte): (r: nat)
    ensures r <= 64
  {
    if 65 <= c < 91 then c as int - 65
    else if 97 <= c < 123 then c as int - 97 + 26
    else if 48 <= c < 58 then c as int - 48 + 52
    else if c == 43 then 62
    else if c == 47 then 63
    else 64
  }

  lemma LetterHasValue(v: nat)
    requires v < 64
    ensures Value(Letter(v)) == v && Letter(v) != PAD
  {
  }

  /** Four letters for three bytes; at the end two or three and padding. */
  function Encoded(b: Bytes): (r: Bytes)
    ensures |r| == (|b| + 2) / 3 * 4
  {
    if b == [] then []
    else if |b| == 1 then
      var x := b[0] as int;
      [Letter(x / 4), Letter(x % 4 * 16), PAD, PAD]
    else if |b| == 2 then
      var x, y := b[0] as int, b[1] as int;
      [Letter(x / 4), Letter(x % 4 * 16 + y / 16), Letter(y % 16 * 4), PAD]
    else
      Quad(b[0] as int, b[1] as int, b[2] as int) + Encoded(b[3..])
  }

  function Quad(x: nat, y: nat, z: nat): (r: Bytes)
    requires x < 256 && y < 256 && z < 256
    ensures |r| == 4
  {
    [Letter(x / 4), Letter(x % 4 * 16 + y / 16), Letter(y % 16 * 4 + z / 64), Letter(z % 64)]
  }

  /** What the values of a quad say, as far as there are enough of them. */
  function Unpacked(q: seq<nat>): Bytes
    requires |q| <= 4 && forall i: nat | i < |q| :: q[i] < 64
  {
    if |q| < 2 then []
    else
      [(q[0] * 4 + q[1] / 16) as byte] +
      if |q| < 3 then []
      else
        [(q[1] % 16 * 16 + q[2] / 4) as byte] + if |q| < 4 then [] else [(q[2] % 4 * 64 + q[3]) as byte]
  }

  /** q is what there is of the next quad, pads the padding seen in it. */
  function Decoding(s: Bytes, q: seq<nat>, pads: nat): Option<Bytes>
    requires |q| < 4 && forall i: nat | i < |q| :: q[i] < 64
    decreases |s|
  {
    if s == [] then if q == [] then Some([]) else None
    else if s[0] == PAD then
      if |q| >= 2 && |q| + pads + 1 >= 4 then Some(Unpacked(q))
      else Decoding(s[1..], q, if |q| >= 2 then pads + 1 else pads)
    else
      var v := Value(s[0]);
      if v == 64 then Decoding(s[1..], q, pads)
      else if |q| < 3 then Decoding(s[1..], q + [v], 0)
      else
        var rest := Decoding(s[1..], [], 0);
        if rest.None? then None else Some(Unpacked(q + [v]) + rest.value)
  }

  function Decoded(s: Bytes): Option<Bytes> {
    Decoding(s, [], 0)
  }

  lemma LetterStep(v: nat, s: Bytes, q: seq<nat>)
    requires v < 64 && |q| < 3 && forall i: nat | i < |q| :: q[i] < 64
    ensures Decoding([Letter(v)] + s, q, 0) == Decoding(s, q + [v], 0)
  {
  }

  lemma LastLetter(v: nat, s: Bytes, q: seq<nat>)
    requires v < 64 && |q| == 3 && forall i: nat | i < |q| :: q[i] < 64
    requires Decoding(s, [], 0).Some?
    ensures Decoding([Letter(v)] + s, q, 0) == Some(Unpacked(q + [v]) + Decoding(s, [], 0).value)
  {
  }

  lemma FourLetters(a: nat, b: nat, c: nat, d: nat, s: Bytes)
    requires a < 64 && b < 64 && c < 64 && d < 64 && Decoded(s).Some?
    ensures Decoded([Letter(a), Letter(b), Letter(c), Letter(d)] + s) == Some(Unpacked([a, b, c, d]) + Decoded(s).value)
  {
    var s3 := [Letter(d)] + s;
    var s2 := [Letter(c)] + s3;
    var s1 := [Letter(b)] + s2;
    assert [Letter(a), Letter(b), Letter(c), Letter(d)] + s == [Letter(a)] + s1;
    LetterStep(a, s1, []);
    LetterStep(b, s2, [a]);
    LetterStep(c, s3, [a, b]);
    LastLetter(d, s, [a, b, c]);
    assert [] + [a] == [a] && [a] + [b] == [a, b] && [a, b] + [c] == [a, b, c] && [a, b, c] + [d] == [a, b, c, d];
  }

  lemma HighPart(x: nat, y: nat)
    requires x < 256 && y < 256
    ensures x / 4 * 4 + (x % 4 * 16 + y / 16) / 16 == x
  {
  }

  lemma MiddlePart(x: nat, y: nat, z: nat)
    requires x < 256 && y < 256 && z < 256
    ensures (x % 4 * 16 + y / 16) % 16 * 16 + (y % 16 * 4 + z / 64) / 4 == y
  {
  }

  lemma LowPart(y: nat, z: nat)
    requires y < 256 && z < 256
    ensures (y % 16 * 4 + z / 64) % 4 * 64 + z % 64 == z
  {
  }

  lemma QuadUnpacks(x: nat, y: nat, z: nat)
    requires x < 256 && y < 256 && z < 256
    ensures Unpacked([x / 4, x % 4 * 16 + y / 16, y % 16 * 4 + z / 64, z % 64]) == [x as byte, y as byte, z as byte]
  {
    HighPart(x, y);
    MiddlePart(x, y, z);
    LowPart(y, z);
  }

  lemma PairUnpacks(x: nat, y: nat)
    requires x < 256 && y < 256
    ensures Unpacked([x / 4, x % 4 * 16 + y / 16, y % 16 * 4]) == [x as byte, y as byte]
    ensures Unpacked([x / 4, x % 4 * 16]) == [x as byte]
  {
  }

  lemma QuadDecodes(x: nat, y: nat, z: nat, s: Bytes)
    requires x < 256 && y < 256 && z < 256 && Decoded(s).Some?
    ensures Decoded(Quad(x, y, z) + s) == Some([x as byte, y as byte, z as byte] + Decoded(s).value)
  {
    FourLetters(x / 4, x % 4 * 16 + y / 16, y % 16 * 4 + z / 64, z % 64, s);
    QuadUnpacks(x, y, z);
  }

  lemma PadsDecode(q: seq<nat>)
    requires 2 <= |q| < 4 && forall i: nat | i < |q| :: q[i] < 64
    ensures Decoding(if |q| == 2 then [PAD, PAD] else [PAD], q, 0) == Some(Unpacked(q))
  {
  }

  lemma ThreeLetters(a: nat, b: nat, c: nat)
    requires a < 64 && b < 64 && c < 64
    ensures Decoded([Letter(a), Letter(b), Letter(c), PAD]) == Some(Unpacked([a, b, c]))
  {
    var s2 := [Letter(c)] + [PAD];
    var s1 := [Letter(b)] + s2;
    assert [Letter(a), Letter(b), Letter(c), PAD] == [Letter(a)] + s1;
    LetterStep(a, s1, []);
    LetterStep(b, s2, [a]);
    LetterStep(c, [PAD], [a, b]);
    assert [] + [a] == [a] && [a] + [b] == [a, b] && [a, b] + [c] == [a, b, c];
    PadsDecode([a, b, c]);
  }

  lemma TwoLetters(a: nat, b: nat)
    requires a < 64 && b < 64
    ensures Decoded([Letter(a), Letter(b), PAD, PAD]) == Some(Unpacked([a, b]))
  {
    var s1 := [Letter(b)] + [PAD, PAD];
    assert [Letter(a), Letter(b), PAD, PAD] == [Letter(a)] + s1;
    LetterStep(a, s1, []);
    LetterStep(b, [PAD, PAD], [a]);
    assert [] + [a] == [a] && [a] + [b] == [a, b];
    PadsDecode([a, b]);
  }

  /** Decoding gives back what was encoded. */
  lemma {:induction false} RoundTrip(b: Bytes)
    ensures Decoded(Encoded(b)) == Some(b)
  {
    if |b| >= 3 {
      RoundTrip(b[3..]);
      QuadDecodes(b[0] as int, b[1] as int, b[2] as int, Encoded(b[3..]));
      assert b == [b[0], b[1], b[2]] + b[3..];
    } else if |b| == 2 {
      var x, y := b[0] as int, b[1] as int;
      ThreeLetters(x / 4, x % 4 * 16 + y / 16, y % 16 * 4);
      PairUnpacks(x, y);
      assert b == [x as byte, y as byte];
    } else if |b| == 1 {
      var x := b[0] as int;
      TwoLetters(x / 4, x % 4 * 16);
      PairUnpacks(x, 0);
      assert b == [x as byte];
    }
  }

  /** The first 4 k letters are the encoding of the first 3 k bytes. */
  lemma {:induction false} PrefixEncodes(b: Bytes, k: nat)
    requires 3 * k <= |b|
    ensures 4 * k <= |Encoded(b)| && Encoded(b)[..4 * k] == Encoded(b[..3 * k])
  {
    if k > 0 {
      PrefixEncodes(b[3..], k - 1);
      var quad := Quad(b[0] as int, b[1] as int, b[2] as int);
      var p := b[..3 * k];
      assert p[3..] == b[3..][..3 * (k - 1)];
      assert Encoded(b)[..4 * k] == quad + Encoded(b[3..])[..4 * (k - 1)];
      assert p[0] == b[0] && p[1] == b[1] && p[2] == b[2];
      assert Encoded(p) == quad + Encoded(p[3..]);
    }
  }

  /** Every letter is printable: no line break among them. */
  lemma {:induction false} OnlyLetters(b: Bytes)
    ensures forall c | c in Encoded(b) :: c == PAD || Value(c) < 64
  {
    if |b| >= 3 {
      OnlyLetters(b[3..]);
      QuadLetters(b[0] as int, b[1] as int, b[2] as int);
    } else if |b| == 2 {
      LetterHasValue(b[0] as int / 4);
      LetterHasValue(b[0] as int % 4 * 16 + b[1] as int / 16);
      LetterHasValue(b[1] as int % 16 * 4);
    } else if |b| == 1 {
      LetterHasValue(b[0] as int / 4);
      LetterHasValue(b[0] as int % 4 * 16);
    }
  }

  lemma QuadLetters(x: nat, y: nat, z: nat)
    requires x < 256 && y < 256 && z < 256
    ensures forall c | c in Quad(x, y, z) :: Value(c) < 64
  {
  }

  // ---------------------------------------------------------------------
  // What the letters are
  // ---------------------------------------------------------------------

  /** Four letters and three bytes are the same number, to the base 64 and to
      the base 256. */
  lemma QuadIsNumber(x: nat, y: nat, z: nat)
    requires x < 256 && y < 256 && z < 256
    ensures var q := Quad(x, y, z);
            ((Value(q[0]) * 64 + Value(q[1])) * 64 + Value(q[2])) * 64 + Value(q[3]) == (x * 256 + y) * 256 + z
  {
    LetterHasValue(x / 4);
    LetterHasValue(x % 4 * 16 + y / 16);
    LetterHasValue(y % 16 * 4 + z / 64);
    LetterHasValue(z % 64);
  }

  /** Test vectors of section 10 of RFC 4648 (f, fo, foo and foobar), and the two
      letters that are neither letters nor digits. */
  lemma TestVectors()
    ensures Encoded([102]) == [90, 103, 61, 61]
    ensures Encoded([102, 111]) == [90, 109, 56, 61]
    ensures Encoded([102, 111, 111]) == [90, 109, 57, 118]
    ensures Encoded([102, 111, 111, 98, 97, 114]) == [90, 109, 57, 118, 89, 109, 70, 121]
    ensures Encoded([0xFB, 0xFF, 0xBF]) == [43, 47, 43, 47]
  {
    OneQuad(102, 111, 111, []);
    OneQuad(98, 97, 114, []);
    OneQuad(102, 111, 111, [98, 97, 114]);
    OneQuad(0xFB, 0xFF, 0xBF, []);
  }

  /** Nothing but the letters has a value. */
  lemma ValueIsOfLetter(c: byte)
    ensures Value(c) < 64 ==> Letter(Value(c)) == c
  {
  }

  lemma AfterTwo(a: nat, b: nat, s: Bytes)
    requires a < 64 && b < 64
    ensures Decoded([Letter(a), Letter(b)] + s) == Decoding(s, [a, b], 0)
  {
    LetterStep(a, [Letter(b)] + s, []);
    LetterStep(b, s, [a]);
    assert [Letter(a), Letter(b)] + s == [Letter(a)] + ([Letter(b)] + s);
    var none: seq<nat> := [];
    assert none + [a] == [a] && [a] + [b] == [a, b];
  }

  lemma AfterThree(a: nat, b: nat, c: nat, s: Bytes)
    requires a < 64 && b < 64 && c < 64
    ensures Decoded([Letter(a), Letter(b), Letter(c)] + s) == Decoding(s, [a, b, c], 0)
  {
    AfterTwo(a, b, [Letter(c)] + s);
    LetterStep(c, s, [a, b]);
    assert [Letter(a), Letter(b), Letter(c)] + s == [Letter(a), Letter(b)] + ([Letter(c)] + s);
    assert [a, b] + [c] == [a, b, c];
  }

  /** What the decoder makes of padding: two at the end after two letters, one
      after three, and none missing. */
  lemma Padding(a: nat, b: nat, c: nat)
    requires a < 64 && b < 64 && c < 64
    ensures var x, y, z := Letter(a), Letter(b), Letter(c);
            && Decoded([x, y] + [PAD, PAD]) == Some(Unpacked([a, b])) && Decoded([x, y] + [PAD]) == None
            && Decoded([x, y, z] + [PAD]) == Some(Unpacked([a, b, c])) && Decoded([x, y, z] + []) == None
  {
    AfterTwo(a, b, [PAD, PAD]);
    AfterTwo(a, b, [PAD]);
    AfterThree(a, b, c, [PAD]);
    AfterThree(a, b, c, []);
  }

  /** Elsewhere it is skipped, as is anything that is no letter. */
  lemma Skipping(s: Bytes, a: nat, b: nat, c: nat)
    requires a < 64 && b < 64 && c < 64
    ensures Decoded([PAD] + s) == Decoded(s) && Decoded([10] + s) == Decoded(s)
    ensures Decoded([Letter(a), Letter(b)] + ([PAD, Letter(c)] + s)) == Decoded([Letter(a), Letter(b), Letter(c)] + s)
  {
    AfterTwo(a, b, [PAD, Letter(c)] + s);
    AfterThree(a, b, c, s);
    LetterHasValue(c);
    var t := [Letter(c)] + s;
    assert ([PAD, Letter(c)] + s)[1..] == t && t[1..] == s && ([PAD] + s)[1..] == s && ([10] + s)[1..] == s;
    assert [a, b] + [c] == [a, b, c];
    assert Decoding(t, [a, b], 1) == Decoding(s, [a, b, c], 0);
  }

  lemma OneQuad(x: byte, y: byte, z: byte, rest: Bytes)
    ensures Encoded([x, y, z] + rest) == Quad(x as nat, y as nat, z as nat) + Encoded(rest)
    ensures rest == [] ==> Encoded([x, y, z]) == Quad(x as nat, y as nat, z as nat)
  {
    assert ([x, y, z] + rest)[3..] == rest;
    assert rest == [] ==> [x, y, z] + rest == [x, y, z];
  }
}
