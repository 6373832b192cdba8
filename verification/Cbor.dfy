/** The subset of CBOR (RFC 8949) that the host tools speak: the encoders, and
    the decoder that also takes the indefinite-length lists and maps of the
    keyboard. */
module Cbor {
  import opened Wrappers
  import opened Bytes

  const U32_END: int := 0x1_0000_0000
  const BREAK: byte := 0xFF

  /** Text is its UTF-8 bytes. */
  datatype Item =
    | Bool(b: bool)
    | Null
    | Int(n: int)
    | Blob(raw: Bytes)
    | Text(chars: Bytes)
    | List(items: seq<Item>)
    | Dict(entries: map<Bytes, Item>)

  datatype Error = OutOfData | BadValue

  // ---------------------------------------------------------------------
  // Encoding
  // ---------------------------------------------------------------------

  /** How many bytes the argument of a head takes beside the first. */
  function Width(n: nat): nat {
    if n <= 23 then 0 else if n <= 0xFF then 1 else if n <= 0xFFFF then 2 else 4
  }

  function Minor(n: nat): nat {
    if n <= 23 then n else if n <= 0xFF then 24 else if n <= 0xFFFF then 25 else 26
  }

  function BigEndian(n: nat, k: nat): (r: Bytes)
    ensures |r| == k
  {
    if k == 0 then [] else BigEndian(n / 0x100, k - 1) + [(n % 0x100) as byte]
  }

  /** The first bytes of an item: major type, and the argument as short as it
      goes. */
  function Head(major: nat, n: nat): (r: Bytes)
    requires major < 8 && n < U32_END
    ensures |r| == 1 + Width(n)
  {
    [(major * 32 + Minor(n)) as byte] + BigEndian(n, Width(n))
  }

  /** A field: bool, null, unsigned number, bytes, text, or a list of those.  With
      `open` its lists have no length and end with a break, as the keyboard
      writes them. */
  function Encoded(v: Item, open: bool): Option<Bytes>
    decreases v
  {
    match v
    case Bool(b) => Some([if b then 0xF5 else 0xF4])
    case Null => Some([0xF6])
    case Int(n) => if 0 <= n < U32_END then Some(Head(0, n)) else None
    case Blob(raw) => if |raw| < U32_END then Some(Head(2, |raw|) + raw) else None
    case Text(s) => if |s| <= 0xFFFF then Some(Head(3, |s|) + s) else None
    case List(items) =>
      if |items| > 0xFF then None
      else
        var all := EncodedAll(items, open);
        if all.None? then None
        else if open then Some([0x9F] + all.value + [BREAK])
        else Some(Head(4, |items|) + all.value)
    case _ => None
  }

  function EncodedAll(items: seq<Item>, open: bool): Option<Bytes>
    decreases items
  {
    if items == [] then Some([])
    else
      var first, rest := Encoded(items[0], open), EncodedAll(items[1..], open);
      if first.None? || rest.None? then None else Some(first.value + rest.value)
  }

  // ---------------------------------------------------------------------
  // Decoding
  // ---------------------------------------------------------------------

  /** What was read, and where the rest starts: beyond the data when a text was
      cut off. */
  datatype Num = NoNum(error: Error) | Num(n: nat, end: nat)

  datatype Parsed = NoItem(error: Error) | Parsed(item: Item, end: nat)

  datatype ParsedList = NoList(error: Error) | ParsedList(items: seq<Item>, end: nat)

  datatype ParsedDict = NoDict(error: Error) | ParsedDict(entries: map<Bytes, Item>, end: nat)

  function Left(d: Bytes, off: nat): nat {
    if off < |d| then |d| - off else 0
  }

  function FromBigEndian(d: Bytes, off: nat, k: nat): nat
    requires off + k <= |d|
  {
    if k == 0 then 0 else FromBigEndian(d, off, k - 1) * 0x100 + d[off + k - 1] as int
  }

  function Argument(d: Bytes, off: nat, minor: nat): (r: Num)
    ensures r.Num? ==> r.end >= off
  {
    if minor <= 23 then Num(minor, off)
    else if minor > 26 then NoNum(BadValue)
    else
      var k := if minor == 24 then 1 else if minor == 25 then 2 else 4;
      if Left(d, off) < k then NoNum(OutOfData) else Num(FromBigEndian(d, off, k), off + k)
  }

  function Slice(d: Bytes, from: nat, n: nat): Bytes {
    if from >= |d| then [] else d[from..Min(from + n, |d|)]
  }

  function Parse(d: Bytes, off: nat): (r: Parsed)
    ensures r.Parsed? ==> off < |d| && r.end > off
    decreases Left(d, off), 3
  {
    if off >= |d| then NoItem(OutOfData)
    else
      var major, minor := d[off] as int / 32, d[off] as int % 32;
      if major < 4 then ParseFlat(d, off + 1, major, minor)
      else if major == 4 then ParseList(d, off + 1, minor)
      else if major == 5 then ParseDict(d, off + 1, minor)
      else if major == 7 then ParseSimple(off + 1, minor)
      else NoItem(BadValue)
  }

  function ParseSimple(end: nat, minor: nat): Parsed {
    if minor == 20 then Parsed(Bool(false), end)
    else if minor == 21 then Parsed(Bool(true), end)
    else if minor == 22 then Parsed(Null, end)
    else NoItem(BadValue)
  }

  function ParseFlat(d: Bytes, off: nat, major: nat, minor: nat): (r: Parsed)
    requires major < 4
    ensures r.Parsed? ==> r.end >= off
  {
    var a := Argument(d, off, minor);
    if a.NoNum? then NoItem(a.error)
    else if major == 0 then Parsed(Int(a.n), a.end)
    else if major == 1 then Parsed(Int(-1 - a.n), a.end)
    else if major == 2 then Parsed(Blob(Slice(d, a.end, a.n)), a.end + a.n)
    else Parsed(Text(Slice(d, a.end, a.n)), a.end + a.n)
  }

  function AsList(l: ParsedList): Parsed {
    if l.NoList? then NoItem(l.error) else Parsed(List(l.items), l.end)
  }

  function AsDict(l: ParsedDict): Parsed {
    if l.NoDict? then NoItem(l.error) else Parsed(Dict(l.entries), l.end)
  }

  function ParseList(d: Bytes, off: nat, minor: nat): (r: Parsed)
    ensures r.Parsed? ==> r.end >= off
    decreases Left(d, off), 6
  {
    if minor == 31 then AsList(ParseUntil(d, off))
    else
      var a := Argument(d, off, minor);
      if a.NoNum? then NoItem(a.error) else AsList(ParseMany(d, a.end, a.n))
  }

  function ParseDict(d: Bytes, off: nat, minor: nat): (r: Parsed)
    ensures r.Parsed? ==> r.end >= off
    decreases Left(d, off), 6
  {
    if minor == 31 then AsDict(ParsePairsUntil(d, off, map[]))
    else
      var a := Argument(d, off, minor);
      if a.NoNum? then NoItem(a.error) else AsDict(ParsePairs(d, a.end, a.n, map[]))
  }

  function Before(v: Item, l: ParsedList): ParsedList {
    if l.NoList? then l else ParsedList([v] + l.items, l.end)
  }

  function ParseMany(d: Bytes, off: nat, n: nat): (r: ParsedList)
    ensures r.ParsedList? ==> r.end >= off
    decreases Left(d, off), 5
  {
    if n == 0 then ParsedList([], off)
    else
      var p := Parse(d, off);
      if p.NoItem? then NoList(p.error) else Before(p.item, ParseMany(d, p.end, n - 1))
  }

  /** Up to and with the break, or the end of the data. */
  function ParseUntil(d: Bytes, off: nat): (r: ParsedList)
    ensures r.ParsedList? ==> r.end >= off
    decreases Left(d, off), 5
  {
    if off >= |d| || d[off] == BREAK then ParsedList([], off + 1)
    else
      var p := Parse(d, off);
      if p.NoItem? then NoList(p.error) else Before(p.item, ParseUntil(d, p.end))
  }

  /** A key and its value; the later of equal keys counts. */
  function ParsePair(d: Bytes, off: nat, sofar: map<Bytes, Item>): (r: ParsedDict)
    ensures r.ParsedDict? ==> off < |d| && r.end > off
    decreases Left(d, off), 4
  {
    var k := Parse(d, off);
    if k.NoItem? then NoDict(k.error)
    else
      var v := Parse(d, k.end);
      if v.NoItem? then NoDict(v.error)
      else if !k.item.Text? then NoDict(BadValue)
      else ParsedDict(sofar[k.item.chars := v.item], v.end)
  }

  function ParsePairs(d: Bytes, off: nat, n: nat, sofar: map<Bytes, Item>): (r: ParsedDict)
    ensures r.ParsedDict? ==> r.end >= off
    decreases Left(d, off), 5
  {
    if n == 0 then ParsedDict(sofar, off)
    else
      var p := ParsePair(d, off, sofar);
      if p.NoDict? then p else ParsePairs(d, p.end, n - 1, p.entries)
  }

  function ParsePairsUntil(d: Bytes, off: nat, sofar: map<Bytes, Item>): (r: ParsedDict)
    ensures r.ParsedDict? ==> r.end >= off
    decreases Left(d, off), 5
  {
    if off >= |d| || d[off] == BREAK then ParsedDict(sofar, off + 1)
    else
      var p := ParsePair(d, off, sofar);
      if p.NoDict? then p else ParsePairsUntil(d, p.end, p.entries)
  }

  // ---------------------------------------------------------------------
  // The decoder's loops
  // ---------------------------------------------------------------------

  method Decode(d: Bytes, off: nat) returns (r: Parsed)
    ensures r == Parse(d, off)
    decreases Left(d, off), 1
  {
    if off >= |d| {
      return NoItem(OutOfData);
    }
    var major, minor := d[off] as int / 32, d[off] as int % 32;
    if major < 4 {
      r := ParseFlat(d, off + 1, major, minor);
    } else if major == 4 {
      r := DecodeList(d, off + 1, minor);
    } else if major == 5 {
      r := DecodeDict(d, off + 1, minor);
    } else if major == 7 {
      r := ParseSimple(off + 1, minor);
    } else {
      r := NoItem(BadValue);
    }
  }

  method DecodeList(d: Bytes, off: nat, minor: nat) returns (r: Parsed)
    ensures r == ParseList(d, off, minor)
    decreases Left(d, off), 3
  {
    var l;
    if minor == 31 {
      l := DecodeUntil(d, off);
    } else {
      var a := Argument(d, off, minor);
      if a.NoNum? {
        return NoItem(a.error);
      }
      l := DecodeMany(d, a.end, a.n);
    }
    r := AsList(l);
  }

  function After(items: seq<Item>, l: ParsedList): ParsedList {
    if l.NoList? then l else ParsedList(items + l.items, l.end)
  }

  lemma AfterBefore(items: seq<Item>, v: Item, l: ParsedList)
    ensures After(items, Before(v, l)) == After(items + [v], l)
  {
  }

  lemma AfterNothing(l: ParsedList)
    ensures After([], l) == l
  {
  }

  method DecodeUntil(d: Bytes, start: nat) returns (r: ParsedList)
    ensures r == ParseUntil(d, start)
    decreases Left(d, start), 2
  {
    var items, off := [], start;
    AfterNothing(ParseUntil(d, start));
    while off < |d| && d[off] != BREAK
      invariant off >= start
      invariant ParseUntil(d, start) == After(items, ParseUntil(d, off))
      decreases Left(d, off)
    {
      var v := Decode(d, off);
      if v.NoItem? {
        return NoList(v.error);
      }
      AfterBefore(items, v.item, ParseUntil(d, v.end));
      items, off := items + [v.item], v.end;
    }
    assert items + [] == items;
    return ParsedList(items, off + 1);
  }

  method DecodeMany(d: Bytes, start: nat, n: nat) returns (r: ParsedList)
    ensures r == ParseMany(d, start, n)
    decreases Left(d, start), 2
  {
    var items, off, i := [], start, 0;
    AfterNothing(ParseMany(d, start, n));
    while i < n
      invariant off >= start && 0 <= i <= n
      invariant ParseMany(d, start, n) == After(items, ParseMany(d, off, n - i))
    {
      var v := Decode(d, off);
      if v.NoItem? {
        return NoList(v.error);
      }
      OneMore(d, off, n - i - 1, v, ParseMany(d, v.end, n - i - 1));
      AfterBefore(items, v.item, ParseMany(d, v.end, n - i - 1));
      items, off, i := items + [v.item], v.end, i + 1;
    }
    assert items + [] == items;
    return ParsedList(items, off);
  }

  method DecodeDict(d: Bytes, off: nat, minor: nat) returns (r: Parsed)
    ensures r == ParseDict(d, off, minor)
    decreases Left(d, off), 3
  {
    var m;
    if minor == 31 {
      m := DecodePairs(d, off, false, 0);
    } else {
      var a := Argument(d, off, minor);
      if a.NoNum? {
        return NoItem(a.error);
      }
      m := DecodePairs(d, a.end, true, a.n);
    }
    r := AsDict(m);
  }

  method DecodePairs(d: Bytes, start: nat, counted: bool, n: nat) returns (r: ParsedDict)
    ensures r == if counted then ParsePairs(d, start, n, map[]) else ParsePairsUntil(d, start, map[])
    decreases Left(d, start), 2
  {
    var entries: map<Bytes, Item>, off, i := map[], start, 0;
    while if counted then i < n else off < |d| && d[off] != BREAK
      invariant off >= start && 0 <= i && (counted ==> i <= n)
      invariant counted ==> ParsePairs(d, start, n, map[]) == ParsePairs(d, off, n - i, entries)
      invariant !counted ==> ParsePairsUntil(d, start, map[]) == ParsePairsUntil(d, off, entries)
      decreases if counted then n - i else Left(d, off)
    {
      var k := Decode(d, off);
      if k.NoItem? {
        return NoDict(k.error);
      }
      var v := Decode(d, k.end);
      if v.NoItem? {
        return NoDict(v.error);
      }
      if !k.item.Text? {
        return NoDict(BadValue);
      }
      entries, off, i := entries[k.item.chars := v.item], v.end, i + 1;
    }
    return ParsedDict(entries, if counted then off else off + 1);
  }

  // ---------------------------------------------------------------------
  // Encoding and decoding together
  // ---------------------------------------------------------------------

  /** b stands at `off`. */
  ghost predicate At(d: Bytes, off: nat, b: Bytes) {
    off + |b| <= |d| && forall k: nat {:trigger b[k]} | k < |b| :: d[off + k] == b[k]
  }

  lemma AtSplit(d: Bytes, off: nat, a: Bytes, b: Bytes)
    requires At(d, off, a + b)
    ensures At(d, off, a) && At(d, off + |a|, b)
  {
    forall k: nat | k < |a|
      ensures d[off + k] == a[k]
    {
      assert (a + b)[k] == a[k];
    }
    forall k: nat | k < |b|
      ensures d[off + |a| + k] == b[k]
    {
      assert (a + b)[|a| + k] == b[k];
    }
  }

  lemma AtFirst(d: Bytes, off: nat, b: Bytes)
    requires At(d, off, b) && b != []
    ensures off < |d| && d[off] == b[0]
  {
  }

  predicate FitsIn(n: nat, k: nat) {
    if k == 0 then n == 0 else FitsIn(n / 0x100, k - 1)
  }

  lemma {:induction false} BigEndianRoundTrip(n: nat, k: nat, d: Bytes, off: nat)
    requires FitsIn(n, k) && At(d, off, BigEndian(n, k))
    ensures FromBigEndian(d, off, k) == n
  {
    if k > 0 {
      var low := [(n % 0x100) as byte];
      AtSplit(d, off, BigEndian(n / 0x100, k - 1), low);
      AtFirst(d, off + k - 1, low);
      BigEndianRoundTrip(n / 0x100, k - 1, d, off);
    }
  }

  lemma WidthFits(n: nat)
    requires 23 < n < U32_END
    ensures FitsIn(n, Width(n))
  {
    var a := n / 0x100;
    var b := a / 0x100;
    var c := b / 0x100;
    assert FitsIn(c / 0x100, 0) <==> c < 0x100;
    assert FitsIn(c, 1) <==> c < 0x100;
    assert FitsIn(b, 2) <==> c < 0x100;
    assert FitsIn(b, 1) <==> b < 0x100;
    assert FitsIn(b, 0) <==> b == 0;
    assert FitsIn(a, 3) <==> c < 0x100;
    assert FitsIn(a, 1) <==> a < 0x100;
  }

  /** The head of an item is read back. */
  lemma HeadRoundTrip(major: nat, n: nat, d: Bytes, off: nat)
    requires major < 7 && n < U32_END && At(d, off, Head(major, n))
    ensures off < |d| && d[off] as int / 32 == major && d[off] as int % 32 == Minor(n) && d[off] != BREAK
    ensures Argument(d, off + 1, Minor(n)) == Num(n, off + 1 + Width(n))
  {
    var first := [(major * 32 + Minor(n)) as byte];
    AtSplit(d, off, first, BigEndian(n, Width(n)));
    AtFirst(d, off, first);
    if n > 23 {
      WidthFits(n);
      BigEndianRoundTrip(n, Width(n), d, off + 1);
    }
  }

  lemma ReadText(d: Bytes, off: nat, minor: nat, t: Bytes, at: nat)
    requires off < |d| && d[off] as int / 32 == 3 && d[off] as int % 32 == minor
    requires Argument(d, off + 1, minor) == Num(|t|, at) && At(d, at, t)
    ensures Parse(d, off) == Parsed(Text(t), at + |t|)
  {
    assert forall k: nat | k < |t| :: Slice(d, at, |t|)[k] == t[k];
    assert Slice(d, at, |t|) == t;
  }

  lemma ReadBlob(d: Bytes, off: nat, minor: nat, raw: Bytes, at: nat)
    requires off < |d| && d[off] as int / 32 == 2 && d[off] as int % 32 == minor
    requires Argument(d, off + 1, minor) == Num(|raw|, at) && At(d, at, raw)
    ensures Parse(d, off) == Parsed(Blob(raw), at + |raw|)
  {
    assert forall k: nat | k < |raw| :: Slice(d, at, |raw|)[k] == raw[k];
    assert Slice(d, at, |raw|) == raw;
  }

  lemma BlobRoundTrip(raw: Bytes, d: Bytes, off: nat)
    requires |raw| < U32_END && At(d, off, Head(2, |raw|) + raw)
    ensures Parse(d, off) == Parsed(Blob(raw), off + |Head(2, |raw|) + raw|) && d[off] != BREAK
  {
    AtSplit(d, off, Head(2, |raw|), raw);
    HeadRoundTrip(2, |raw|, d, off);
    ReadBlob(d, off, Minor(|raw|), raw, off + 1 + Width(|raw|));
  }

  lemma TextRoundTrip(t: Bytes, d: Bytes, off: nat)
    requires |t| <= 0xFFFF && At(d, off, Head(3, |t|) + t)
    ensures Parse(d, off) == Parsed(Text(t), off + |Head(3, |t|) + t|) && d[off] != BREAK
  {
    AtSplit(d, off, Head(3, |t|), t);
    HeadRoundTrip(3, |t|, d, off);
    ReadText(d, off, Minor(|t|), t, off + 1 + Width(|t|));
  }

  lemma ReadList(d: Bytes, off: nat, minor: nat, n: nat, at: nat, l: ParsedList)
    requires off < |d| && d[off] as int / 32 == 4 && d[off] as int % 32 == minor != 31
    requires Argument(d, off + 1, minor) == Num(n, at) && ParseMany(d, at, n) == l
    ensures Parse(d, off) == AsList(l)
  {
  }

  lemma ReadOpenList(d: Bytes, off: nat, l: ParsedList)
    requires off < |d| && d[off] == 0x9F && ParseUntil(d, off + 1) == l
    ensures Parse(d, off) == AsList(l)
  {
  }

  lemma ReadDict(d: Bytes, off: nat, minor: nat, n: nat, at: nat, l: ParsedDict)
    requires off < |d| && d[off] as int / 32 == 5 && d[off] as int % 32 == minor != 31
    requires Argument(d, off + 1, minor) == Num(n, at) && ParsePairs(d, at, n, map[]) == l
    ensures Parse(d, off) == AsDict(l)
  {
  }

  lemma ReadOpenDict(d: Bytes, off: nat, l: ParsedDict)
    requires off < |d| && d[off] == 0xBF && ParsePairsUntil(d, off + 1, map[]) == l
    ensures Parse(d, off) == AsDict(l)
  {
  }

  lemma ReadInt(d: Bytes, off: nat, minor: nat, n: nat, at: nat)
    requires off < |d| && d[off] as int / 32 == 0 && d[off] as int % 32 == minor
    requires Argument(d, off + 1, minor) == Num(n, at)
    ensures Parse(d, off) == Parsed(Int(n), at)
  {
  }

  lemma IntRoundTrip(n: nat, d: Bytes, off: nat)
    requires n < U32_END && At(d, off, Head(0, n))
    ensures Parse(d, off) == Parsed(Int(n), off + |Head(0, n)|) && d[off] != BREAK
  {
    HeadRoundTrip(0, n, d, off);
    ReadInt(d, off, Minor(n), n, off + 1 + Width(n));
  }

  lemma BoolRoundTrip(b: bool, d: Bytes, off: nat)
    requires At(d, off, [if b then 0xF5 else 0xF4])
    ensures Parse(d, off) == Parsed(Bool(b), off + 1) && d[off] != BREAK
  {
    AtFirst(d, off, [if b then 0xF5 else 0xF4]);
  }

  lemma NullRoundTrip(d: Bytes, off: nat)
    requires At(d, off, [0xF6])
    ensures Parse(d, off) == Parsed(Null, off + 1) && d[off] != BREAK
  {
    AtFirst(d, off, [0xF6]);
  }

  /** Major type 1 holds -1 - n, so every negative number of 32 bits and a sign
      can be read. */
  lemma NegativeRoundTrip(n: nat, d: Bytes, off: nat)
    requires n < U32_END && At(d, off, Head(1, n))
    ensures Parse(d, off) == Parsed(Int(-1 - n), off + |Head(1, n)|) && d[off] != BREAK
  {
    HeadRoundTrip(1, n, d, off);
    ReadNegative(d, off, Minor(n), n, off + 1 + Width(n));
  }

  lemma ReadNegative(d: Bytes, off: nat, minor: nat, n: nat, at: nat)
    requires off < |d| && d[off] as int / 32 == 1 && d[off] as int % 32 == minor
    requires Argument(d, off + 1, minor) == Num(n, at)
    ensures Parse(d, off) == Parsed(Int(-1 - n), at)
  {
  }

  /** A text whose data ends early is what there is of it. */
  lemma CutText(t: Bytes, n: nat, d: Bytes, off: nat)
    requires |t| < n < U32_END && off + |Head(3, n)| + |t| == |d| && At(d, off, Head(3, n) + t)
    ensures Parse(d, off) == Parsed(Text(t), |d| + (n - |t|))
  {
    AtSplit(d, off, Head(3, n), t);
    HeadRoundTrip(3, n, d, off);
    var at := off + 1 + Width(n);
    assert at < |d| ==> forall k: nat | k < |t| :: d[at..|d|][k] == t[k];
    assert Slice(d, at, n) == t;
  }

  /** What the decoder refuses at its first byte: arguments of eight bytes and
      reserved forms, an indefinite form of anything but a list or a map, tags,
      and other simple values than bools and null. */
  lemma RefusedHeads(d: Bytes, off: nat)
    requires off < |d|
    requires var major, minor := d[off] as int / 32, d[off] as int % 32;
             || (major < 4 && minor > 26) || (4 <= major <= 5 && 26 < minor < 31)
             || major == 6 || (major == 7 && minor !in {20, 21, 22})
    ensures Parse(d, off) == NoItem(BadValue)
  {
  }

  /** Examples of appendix A of RFC 8949: numbers, */
  lemma NumberExamples()
    ensures Head(0, 0) == [0x00] && Head(0, 23) == [0x17] && Head(0, 24) == [0x18, 0x18] && Head(0, 100) == [0x18, 0x64]
    ensures Head(0, 1000) == [0x19, 0x03, 0xE8] && Head(0, 1000000) == [0x1A, 0x00, 0x0F, 0x42, 0x40]
  {
    assert BigEndian(24, 1) == [24] && BigEndian(100, 1) == [100];
    assert BigEndian(3, 1) == [3] && BigEndian(1000, 2) == [0x03, 0xE8];
    Million();
  }

  lemma Million()
    ensures BigEndian(1000000, 4) == [0, 0x0F, 0x42, 0x40]
  {
    assert BigEndian(0, 1) == [0] && BigEndian(0x0F, 2) == [0, 0x0F];
    assert BigEndian(0x0F42, 3) == [0, 0x0F, 0x42];
  }

  /** negative numbers, */
  lemma NegativeExamples()
    ensures Parse([0x20], 0) == Parsed(Int(-1), 1) && Parse([0x38, 0x63], 0) == Parsed(Int(-100), 2)
  {
    assert Head(1, 0) == [0x20];
    NegativeRoundTrip(0, [0x20], 0);
    assert BigEndian(99, 1) == [99];
    assert Head(1, 99) == [0x38, 0x63];
    NegativeRoundTrip(99, [0x38, 0x63], 0);
  }

  /** and the other types. */
  lemma OtherExamples()
    ensures Encoded(Bool(false), false) == Some([0xF4]) && Encoded(Bool(true), false) == Some([0xF5])
    ensures Encoded(Null, false) == Some([0xF6])
    ensures Encoded(Text([0x61]), false) == Some([0x61, 0x61])
    ensures Encoded(Blob([1, 2, 3, 4]), false) == Some([0x44, 1, 2, 3, 4])
    ensures Encoded(List([]), false) == Some([0x80]) && Encoded(List([]), true) == Some([0x9F, 0xFF])
    ensures EncodedMap([], false) == Some([0xA0]) && EncodedMap([], true) == Some([0xBF, 0xFF])
  {
    ShortHeads();
    assert Head(3, 1) + [0x61] == [0x61, 0x61];
    assert Head(2, 4) + [1, 2, 3, 4] == [0x44, 1, 2, 3, 4];
    assert Head(4, 0) + [] == [0x80] && Head(5, 0) + [] == [0xA0];
    assert [0xBF] + ([] + [BREAK]) == [0xBF, 0xFF];
    assert [0x9F] + [] + [BREAK] == [0x9F, 0xFF];
  }

  lemma ShortHeads()
    ensures Head(3, 1) == [0x61] && Head(2, 4) == [0x44] && Head(4, 0) == [0x80] && Head(5, 0) == [0xA0]
  {
    assert BigEndian(1, 0) == [] && BigEndian(4, 0) == [] && BigEndian(0, 0) == [];
  }

  /** Wherever the encoding of a request field stands, and whatever follows, it
      is read back, and the end of it, in both forms. */
  lemma {:induction false} RoundTrip(v: Item, open: bool, b: Bytes, d: Bytes, off: nat)
    requires Encoded(v, open) == Some(b) && At(d, off, b)
    ensures Parse(d, off) == Parsed(v, off + |b|) && d[off] != BREAK
    decreases v
  {
    match v {
      case Bool(b) => BoolRoundTrip(b, d, off);
      case Null => NullRoundTrip(d, off);
      case Int(n) => IntRoundTrip(n, d, off);
      case Blob(raw) => BlobRoundTrip(raw, d, off);
      case Text(t) => TextRoundTrip(t, d, off);
      case List(items) =>
        var all := EncodedAll(items, open).value;
        if open {
          OpenListRoundTrip(items, all, d, off);
        } else {
          CountedListRoundTrip(items, all, d, off);
        }
    }
  }

  lemma {:induction false} OpenListRoundTrip(items: seq<Item>, all: Bytes, d: Bytes, off: nat)
    requires EncodedAll(items, true) == Some(all) && At(d, off, [0x9F] + all + [BREAK])
    ensures Parse(d, off) == Parsed(List(items), off + |all| + 2) && d[off] != BREAK
    decreases items, 1
  {
    assert [0x9F] + all + [BREAK] == [0x9F] + (all + [BREAK]);
    AtSplit(d, off, [0x9F], all + [BREAK]);
    AtFirst(d, off, [0x9F]);
    UntilRoundTrip(items, d, off + 1);
    ReadOpenList(d, off, ParsedList(items, off + 1 + |all| + 1));
  }

  lemma {:induction false} CountedListRoundTrip(items: seq<Item>, all: Bytes, d: Bytes, off: nat)
    requires EncodedAll(items, false) == Some(all) && |items| <= 0xFF && At(d, off, Head(4, |items|) + all)
    ensures Parse(d, off) == Parsed(List(items), off + |Head(4, |items|) + all|) && d[off] != BREAK
    decreases items, 1
  {
    var h := Head(4, |items|);
    AtSplit(d, off, h, all);
    HeadRoundTrip(4, |items|, d, off);
    assert all + [] == all;
    ManyRoundTrip(items, d, off + |h|);
    ReadList(d, off, Minor(|items|), |items|, off + |h|, ParsedList(items, off + |h| + |all|));
  }

  lemma OneMore(d: Bytes, off: nat, n: nat, p: Parsed, l: ParsedList)
    requires Parse(d, off) == p && p.Parsed? && ParseMany(d, p.end, n) == l
    ensures ParseMany(d, off, n + 1) == Before(p.item, l)
  {
  }

  lemma OneMoreUntil(d: Bytes, off: nat, p: Parsed, l: ParsedList)
    requires Parse(d, off) == p && p.Parsed? && d[off] != BREAK && ParseUntil(d, p.end) == l
    ensures ParseUntil(d, off) == Before(p.item, l)
  {
  }

  /** The first item of a list stands at `off`, the others and what closes the
      list behind it. */
  lemma FirstItem(items: seq<Item>, open: bool, tail: Bytes, d: Bytes, off: nat) returns (first: Bytes, rest: Bytes)
    requires items != [] && EncodedAll(items, open).Some? && At(d, off, EncodedAll(items, open).value + tail)
    ensures Encoded(items[0], open) == Some(first) && EncodedAll(items[1..], open) == Some(rest)
    ensures |EncodedAll(items, open).value| == |first| + |rest|
    ensures At(d, off, first) && At(d, off + |first|, rest + tail)
    ensures [items[0]] + items[1..] == items
  {
    first, rest := Encoded(items[0], open).value, EncodedAll(items[1..], open).value;
    assert first + rest + tail == first + (rest + tail);
    AtSplit(d, off, first, rest + tail);
  }

  lemma {:induction false} ManyRoundTrip(items: seq<Item>, d: Bytes, off: nat)
    requires EncodedAll(items, false).Some? && At(d, off, EncodedAll(items, false).value + [])
    ensures ParseMany(d, off, |items|) == ParsedList(items, off + |EncodedAll(items, false).value|)
    decreases items, 0
  {
    if items != [] {
      var first, rest := FirstItem(items, false, [], d, off);
      RoundTrip(items[0], false, first, d, off);
      ManyRoundTrip(items[1..], d, off + |first|);
      OneMore(d, off, |items| - 1, Parsed(items[0], off + |first|), ParsedList(items[1..], off + |first| + |rest|));
    }
  }

  lemma {:induction false} UntilRoundTrip(items: seq<Item>, d: Bytes, off: nat)
    requires EncodedAll(items, true).Some? && At(d, off, EncodedAll(items, true).value + [BREAK])
    ensures ParseUntil(d, off) == ParsedList(items, off + |EncodedAll(items, true).value| + 1)
    decreases items, 0
  {
    if items == [] {
      AtFirst(d, off, [] + [BREAK]);
    } else {
      var first, rest := FirstItem(items, true, [BREAK], d, off);
      RoundTrip(items[0], true, first, d, off);
      UntilRoundTrip(items[1..], d, off + |first|);
      OneMoreUntil(d, off, Parsed(items[0], off + |first|), ParsedList(items[1..], off + |first| + |rest| + 1));
    }
  }

  lemma {:induction false} EncodedAllAppend(items: seq<Item>, last: Item, open: bool)
    requires EncodedAll(items, open).Some? && Encoded(last, open).Some?
    ensures EncodedAll(items + [last], open) == Some(EncodedAll(items, open).value + Encoded(last, open).value)
  {
    if items == [] {
      assert [] + [last] == [last] && EncodedAll([last][1..], open) == Some([]);
      var b := Encoded(last, open).value;
      assert b + [] == b && [] + b == b;
    } else {
      EncodedAllAppend(items[1..], last, open);
      assert (items + [last])[0] == items[0] && (items + [last])[1..] == items[1..] + [last];
      var first, rest, b := Encoded(items[0], open).value, EncodedAll(items[1..], open).value, Encoded(last, open).value;
      assert first + (rest + b) == first + rest + b;
    }
  }

  // ---------------------------------------------------------------------
  // Maps
  // ---------------------------------------------------------------------

  /** A key and a value that is encoded already. */
  datatype Pair = Pair(key: Bytes, val: Bytes)

  function EncodedPairs(pairs: seq<Pair>): Option<Bytes> {
    if pairs == [] then Some([])
    else
      var rest, p := EncodedPairs(pairs[1..]), pairs[0];
      if |p.key| > 0xFFFF || rest.None? then None
      else Some(Head(3, |p.key|) + p.key + p.val + rest.value)
  }

  /** A request map, or with `open` the keyboard's. */
  function EncodedMap(pairs: seq<Pair>, open: bool): Option<Bytes> {
    var all := EncodedPairs(pairs);
    if all.None? || |pairs| > 0xFF then None
    else if open then Some([0xBF] + (all.value + [BREAK]))
    else Some(Head(5, |pairs|) + all.value)
  }

  /** Value i decodes to the item given for it. */
  ghost predicate ValueIs(pairs: seq<Pair>, vs: seq<Item>, i: nat)
    requires i < |pairs| == |vs|
  {
    forall d: Bytes, off: nat | At(d, off, pairs[i].val) ::
      Parse(d, off) == Parsed(vs[i], off + |pairs[i].val|)
  }

  ghost predicate ValuesAre(pairs: seq<Pair>, vs: seq<Item>) {
    |pairs| == |vs| && forall i: nat {:trigger ValueIs(pairs, vs, i)} | i < |pairs| :: ValueIs(pairs, vs, i)
  }

  function Entries(pairs: seq<Pair>, vs: seq<Item>, sofar: map<Bytes, Item>): map<Bytes, Item>
    requires |pairs| == |vs|
  {
    if pairs == [] then sofar else Entries(pairs[1..], vs[1..], sofar[pairs[0].key := vs[0]])
  }

  lemma ValuesLeft(pairs: seq<Pair>, vs: seq<Item>)
    requires ValuesAre(pairs, vs) && pairs != []
    ensures ValueIs(pairs, vs, 0) && ValuesAre(pairs[1..], vs[1..])
  {
    var ps, ws := pairs[1..], vs[1..];
    forall i: nat | i < |ps|
      ensures ValueIs(ps, ws, i)
    {
      assert ValueIs(pairs, vs, i + 1);
    }
  }

  lemma PairRoundTrip(p: Pair, v: Item, d: Bytes, off: nat, sofar: map<Bytes, Item>)
    requires |p.key| <= 0xFFFF && At(d, off, Head(3, |p.key|) + p.key + p.val)
    requires var o := off + |Head(3, |p.key|) + p.key|; Parse(d, o) == Parsed(v, o + |p.val|)
    ensures var b := Head(3, |p.key|) + p.key + p.val;
            ParsePair(d, off, sofar) == ParsedDict(sofar[p.key := v], off + |b|) && d[off] != BREAK
  {
    AtSplit(d, off, Head(3, |p.key|) + p.key, p.val);
    assert Parse(d, off) == Parsed(Text(p.key), off + |Head(3, |p.key|) + p.key|) by {
      TextRoundTrip(p.key, d, off);
    }
    assert d[off] != BREAK;
  }

  /** One pair of a map stands at `off`, with the rest of them behind it. */
  lemma SplitPair(pairs: seq<Pair>, tail: Bytes, d: Bytes, off: nat) returns (k: Bytes, rest: Bytes)
    requires pairs != [] && EncodedPairs(pairs).Some? && At(d, off, EncodedPairs(pairs).value + tail)
    ensures |pairs[0].key| <= 0xFFFF && k == Head(3, |pairs[0].key|) + pairs[0].key
    ensures EncodedPairs(pairs[1..]) == Some(rest)
    ensures |EncodedPairs(pairs).value| == |k| + |pairs[0].val| + |rest|
    ensures At(d, off, k + pairs[0].val) && At(d, off + |k|, pairs[0].val)
    ensures At(d, off + |k| + |pairs[0].val|, rest + tail)
  {
    var p := pairs[0];
    k, rest := Head(3, |p.key|) + p.key, EncodedPairs(pairs[1..]).value;
    assert k + p.val + rest + tail == k + p.val + (rest + tail);
    AtSplit(d, off, k + p.val, rest + tail);
    AtSplit(d, off, k, p.val);
  }

  lemma FirstPair(pairs: seq<Pair>, vs: seq<Item>, tail: Bytes, d: Bytes, off: nat, sofar: map<Bytes, Item>)
    returns (n: nat, rest: Bytes)
    requires pairs != [] && EncodedPairs(pairs).Some? && ValuesAre(pairs, vs)
    requires At(d, off, EncodedPairs(pairs).value + tail)
    ensures ValuesAre(pairs[1..], vs[1..])
    ensures EncodedPairs(pairs[1..]) == Some(rest) && |EncodedPairs(pairs).value| == n + |rest|
    ensures ParsePair(d, off, sofar) == ParsedDict(sofar[pairs[0].key := vs[0]], off + n) && d[off] != BREAK
    ensures At(d, off + n, rest + tail)
  {
    var k, rest' := SplitPair(pairs, tail, d, off);
    n, rest := |k + pairs[0].val|, rest';
    ValuesLeft(pairs, vs);
    PairRoundTrip(pairs[0], vs[0], d, off, sofar);
  }

  lemma OneMorePair(d: Bytes, off: nat, n: nat, sofar: map<Bytes, Item>, p: ParsedDict, l: ParsedDict)
    requires ParsePair(d, off, sofar) == p && p.ParsedDict? && ParsePairs(d, p.end, n, p.entries) == l
    ensures ParsePairs(d, off, n + 1, sofar) == l
  {
  }

  lemma OneMorePairUntil(d: Bytes, off: nat, sofar: map<Bytes, Item>, p: ParsedDict, l: ParsedDict)
    requires ParsePair(d, off, sofar) == p && p.ParsedDict? && d[off] != BREAK
    requires ParsePairsUntil(d, p.end, p.entries) == l
    ensures ParsePairsUntil(d, off, sofar) == l
  {
  }

  lemma {:induction false} PairsRoundTrip(pairs: seq<Pair>, vs: seq<Item>, d: Bytes, off: nat, sofar: map<Bytes, Item>)
    requires EncodedPairs(pairs).Some? && ValuesAre(pairs, vs) && At(d, off, EncodedPairs(pairs).value + [])
    ensures ParsePairs(d, off, |pairs|, sofar)
         == ParsedDict(Entries(pairs, vs, sofar), off + |EncodedPairs(pairs).value|)
    decreases |pairs|
  {
    if pairs != [] {
      var n, rest := FirstPair(pairs, vs, [], d, off, sofar);
      var next := sofar[pairs[0].key := vs[0]];
      PairsRoundTrip(pairs[1..], vs[1..], d, off + n, next);
      OneMorePair(d, off, |pairs| - 1, sofar, ParsedDict(next, off + n),
                  ParsedDict(Entries(pairs, vs, sofar), off + n + |rest|));
    }
  }

  lemma {:induction false} PairsUntilRoundTrip(pairs: seq<Pair>, vs: seq<Item>, d: Bytes, off: nat, sofar: map<Bytes, Item>)
    requires EncodedPairs(pairs).Some? && ValuesAre(pairs, vs) && At(d, off, EncodedPairs(pairs).value + [BREAK])
    ensures ParsePairsUntil(d, off, sofar)
         == ParsedDict(Entries(pairs, vs, sofar), off + |EncodedPairs(pairs).value| + 1)
    decreases |pairs|
  {
    if pairs == [] {
      AtFirst(d, off, [] + [BREAK]);
    } else {
      var n, rest := FirstPair(pairs, vs, [BREAK], d, off, sofar);
      var next := sofar[pairs[0].key := vs[0]];
      PairsUntilRoundTrip(pairs[1..], vs[1..], d, off + n, next);
      OneMorePairUntil(d, off, sofar, ParsedDict(next, off + n),
                       ParsedDict(Entries(pairs, vs, sofar), off + n + |rest| + 1));
    }
  }

  lemma OpenMapRoundTrip(pairs: seq<Pair>, vs: seq<Item>, all: Bytes, d: Bytes, off: nat)
    requires EncodedPairs(pairs) == Some(all) && ValuesAre(pairs, vs) && At(d, off, [0xBF] + (all + [BREAK]))
    ensures Parse(d, off) == Parsed(Dict(Entries(pairs, vs, map[])), off + |all| + 2)
  {
    AtSplit(d, off, [0xBF], all + [BREAK]);
    AtFirst(d, off, [0xBF]);
    PairsUntilRoundTrip(pairs, vs, d, off + 1, map[]);
    ReadOpenDict(d, off, ParsedDict(Entries(pairs, vs, map[]), off + 1 + |all| + 1));
  }

  lemma CountedMapRoundTrip(pairs: seq<Pair>, vs: seq<Item>, all: Bytes, d: Bytes, off: nat)
    requires EncodedPairs(pairs) == Some(all) && ValuesAre(pairs, vs) && |pairs| <= 0xFF
    requires At(d, off, Head(5, |pairs|) + all)
    ensures Parse(d, off) == Parsed(Dict(Entries(pairs, vs, map[])), off + |Head(5, |pairs|) + all|)
  {
    var h := Head(5, |pairs|);
    AtSplit(d, off, h, all);
    HeadRoundTrip(5, |pairs|, d, off);
    assert all + [] == all;
    PairsRoundTrip(pairs, vs, d, off + |h|, map[]);
    ReadDict(d, off, Minor(|pairs|), |pairs|, off + |h|, ParsedDict(Entries(pairs, vs, map[]), off + |h| + |all|));
  }

  lemma {:induction false} EncodedPairsAppend(pairs: seq<Pair>, last: Pair)
    requires EncodedPairs(pairs).Some? && |last.key| <= 0xFFFF
    ensures EncodedPairs(pairs + [last]) == Some(EncodedPairs(pairs).value + (Head(3, |last.key|) + last.key + last.val))
  {
    if pairs == [] {
      assert [] + [last] == [last] && EncodedPairs([last][1..]) == Some([]);
      var b := Head(3, |last.key|) + last.key + last.val;
      assert b + [] == b && [] + b == b;
    } else {
      EncodedPairsAppend(pairs[1..], last);
      assert (pairs + [last])[0] == pairs[0] && (pairs + [last])[1..] == pairs[1..] + [last];
      var p := pairs[0];
      var first, rest, b := Head(3, |p.key|) + p.key + p.val, EncodedPairs(pairs[1..]).value, Head(3, |last.key|) + last.key + last.val;
      assert first + (rest + b) == first + rest + b;
    }
  }

  lemma {:induction false} EntriesAppend(pairs: seq<Pair>, vs: seq<Item>, last: Pair, v: Item, sofar: map<Bytes, Item>)
    requires |pairs| == |vs|
    ensures Entries(pairs + [last], vs + [v], sofar) == Entries(pairs, vs, sofar)[last.key := v]
  {
    if pairs == [] {
      assert [] + [last] == [last] && [] + [v] == [v];
    } else {
      EntriesAppend(pairs[1..], vs[1..], last, v, sofar[pairs[0].key := vs[0]]);
      assert (pairs + [last])[1..] == pairs[1..] + [last] && (vs + [v])[1..] == vs[1..] + [v];
    }
  }

  /** Values that are encoded items are what they decode to. */
  lemma EncodedValues(pairs: seq<Pair>, vs: seq<Item>, open: bool)
    requires |pairs| == |vs| && forall i: nat | i < |pairs| :: Encoded(vs[i], open) == Some(pairs[i].val)
    ensures ValuesAre(pairs, vs)
  {
    forall i: nat | i < |pairs|
      ensures ValueIs(pairs, vs, i)
    {
      forall d: Bytes, off: nat | At(d, off, pairs[i].val)
        ensures Parse(d, off) == Parsed(vs[i], off + |pairs[i].val|)
      {
        RoundTrip(vs[i], open, pairs[i].val, d, off);
      }
    }
  }

  /** A map is read back in both forms; the later of equal keys counts. */
  lemma MapRoundTrip(pairs: seq<Pair>, vs: seq<Item>, open: bool, d: Bytes, off: nat)
    requires EncodedMap(pairs, open).Some? && ValuesAre(pairs, vs) && At(d, off, EncodedMap(pairs, open).value)
    ensures Parse(d, off) == Parsed(Dict(Entries(pairs, vs, map[])), off + |EncodedMap(pairs, open).value|)
  {
    var all := EncodedPairs(pairs).value;
    if open {
      OpenMapRoundTrip(pairs, vs, all, d, off);
    } else {
      CountedMapRoundTrip(pairs, vs, all, d, off);
    }
  }

  /** With distinct keys every key has its own value, and there are no others. */
  lemma {:induction false} EntriesOfDistinct(pairs: seq<Pair>, vs: seq<Item>, sofar: map<Bytes, Item>)
    requires |pairs| == |vs| && forall i: nat, j: nat | i < j < |pairs| :: pairs[i].key != pairs[j].key
    ensures var m := Entries(pairs, vs, sofar);
            && (forall i: nat | i < |pairs| :: pairs[i].key in m && m[pairs[i].key] == vs[i])
            && (forall k | k in m :: k in sofar || exists i: nat :: i < |pairs| && pairs[i].key == k)
            && (forall k | k in sofar && (forall i: nat | i < |pairs| :: pairs[i].key != k) :: k in m && m[k] == sofar[k])
  {
    if pairs != [] {
      EntriesOfDistinct(pairs[1..], vs[1..], sofar[pairs[0].key := vs[0]]);
      assert forall i: nat | 0 < i < |pairs| :: pairs[i] == pairs[1..][i - 1] && vs[i] == vs[1..][i - 1];
    }
  }

  /** A map of encodable fields under distinct keys is read back as exactly
      that, wherever it stands. */
  lemma FieldsRoundTrip(keys: seq<Bytes>, vs: seq<Item>, pairs: seq<Pair>, open: bool, d: Bytes, off: nat)
    requires |keys| == |vs| == |pairs|
    requires forall i: nat, j: nat | i < j < |keys| :: keys[i] != keys[j]
    requires forall i: nat | i < |keys| :: Some(pairs[i].val) == Encoded(vs[i], open) && pairs[i].key == keys[i]
    requires EncodedMap(pairs, open).Some? && At(d, off, EncodedMap(pairs, open).value)
    ensures exists m: map<Bytes, Item> ::
              && Parse(d, off) == Parsed(Dict(m), off + |EncodedMap(pairs, open).value|)
              && (forall k :: k in m <==> k in keys)
              && forall i: nat | i < |keys| :: keys[i] in m && m[keys[i]] == vs[i]
  {
    EncodedValues(pairs, vs, open);
    MapRoundTrip(pairs, vs, open, d, off);
    EntriesOfDistinct(pairs, vs, map[]);
    var m := Entries(pairs, vs, map[]);
    forall k
      ensures k in m <==> k in keys
    {
      if k in keys {
        var i: nat :| i < |keys| && keys[i] == k;
        assert pairs[i].key in m;
      }
    }
  }
}
