/** The stored form of one setting. */
module Codec {
  import opened Wrappers
  import opened Bytes
  import opened Registry

  const BUF: nat := 192       // longest stored value
  const COMMA: byte := 44

  // ---------------------------------------------------------------------
  // Numbers
  // ---------------------------------------------------------------------

  function PutLe32(u: U32): Bytes {
    [(u % 0x100) as byte, (u / 0x100 % 0x100) as byte, (u / 0x1_0000 % 0x100) as byte, (u / 0x100_0000) as byte]
  }

  function GetLe32(b: Bytes): U32
    requires |b| == 4
  {
    b[0] as int + b[1] as int * 0x100 + b[2] as int * 0x1_0000 + b[3] as int * 0x100_0000
  }

  lemma Le32RoundTrip(u: U32)
    ensures GetLe32(PutLe32(u)) == u
  {
    assert u / 0x1_0000 == u / 0x100 / 0x100;
    assert u / 0x100_0000 == u / 0x1_0000 / 0x100;
  }

  /** The low byte comes first. */
  lemma LowByteFirst(u: U32)
    ensures PutLe32(u)[0] as int == u % 0x100 && PutLe32(u / 0x100) == PutLe32(u)[1..] + [0]
  {
    assert u / 0x1_0000 == u / 0x100 / 0x100;
    assert u / 0x100_0000 == u / 0x1_0000 / 0x100;
  }

  // ---------------------------------------------------------------------
  // Names joined with commas
  // ---------------------------------------------------------------------

  /** The parts between the commas, at least one. */
  function Pieces(b: Bytes): (r: seq<Bytes>)
    ensures r != []
  {
    if b == [] then [[]]
    else
      var r := Pieces(b[1..]);
      if b[0] == COMMA then [[]] + r else [[b[0]] + r[0]] + r[1..]
  }

  function Join(names: seq<Bytes>): Bytes {
    if names == [] then []
    else if |names| == 1 then names[0]
    else Join(names[..|names| - 1]) + [COMMA] + names[|names| - 1]
  }

  predicate CommaFree(names: seq<Bytes>) {
    forall n | n in names :: COMMA !in n
  }

  lemma {:induction false} OnePiece(a: Bytes)
    requires COMMA !in a
    ensures Pieces(a) == [a]
  {
    if a != [] {
      OnePiece(a[1..]);
      assert [a[0]] + a[1..] == a;
    }
  }

  lemma {:induction false} FirstComma(a: Bytes, b: Bytes)
    requires COMMA !in a
    ensures Pieces(a + [COMMA] + b) == [a] + Pieces(b)
  {
    var s := a + [COMMA] + b;
    if a == [] {
      assert s[1..] == b;
    } else {
      assert s[1..] == a[1..] + [COMMA] + b;
      FirstComma(a[1..], b);
      assert [a[0]] + a[1..] == a;
    }
  }

  lemma {:induction false} PiecesAppend(a: Bytes, b: Bytes)
    requires COMMA !in b
    ensures Pieces(a + [COMMA] + b) == Pieces(a) + [b]
  {
    var s := a + [COMMA] + b;
    if a == [] {
      OnePiece(b);
      assert s[1..] == b;
    } else {
      assert s[1..] == a[1..] + [COMMA] + b;
      PiecesAppend(a[1..], b);
    }
  }

  lemma {:induction false} PiecesOfJoin(names: seq<Bytes>)
    requires names != [] && CommaFree(names)
    ensures Pieces(Join(names)) == names
  {
    var k := |names| - 1;
    assert names == names[..k] + [names[k]];
    if k == 0 {
      OnePiece(names[0]);
    } else {
      PiecesOfJoin(names[..k]);
      PiecesAppend(Join(names[..k]), names[k]);
    }
  }

  lemma {:induction false} PiecesAreCommaFree(b: Bytes)
    ensures CommaFree(Pieces(b))
  {
    if b != [] {
      PiecesAreCommaFree(b[1..]);
      assert Pieces(b[1..])[0] in Pieces(b[1..]);
    }
  }

  // ---------------------------------------------------------------------
  // Decoding
  // ---------------------------------------------------------------------

  /** The indexes of the names that d knows, in order. */
  function Indexes(d: Def, names: seq<Bytes>): seq<U8> {
    if names == [] then []
    else
      var x := NameIndex(d, names[0]);
      (if x.Some? then [x.value] else []) + Indexes(d, names[1..])
  }

  function Cut(xs: seq<U8>): seq<U8> {
    xs[..Min(|xs|, LIST_MAX)]
  }

  function Decoded(d: Def, b: Bytes): Result<Value, Errno> {
    match d.typ
    case Bool | Uint | Color => if |b| != 4 then Err(EINVAL) else Ok(Value(GetLe32(b), []))
    case Enum =>
      var x := NameIndex(d, b);
      if x.None? then Err(EINVAL) else Ok(Value(x.value, []))
    case List => Ok(Value(0, Cut(Indexes(d, Pieces(b)))))
    case Other => Err(EINVAL)
  }

  method Decode(d: Def, b: Bytes) returns (r: Result<Value, Errno>)
    ensures r == Decoded(d, b)
  {
    match d.typ {
      case Bool | Uint | Color =>
        if |b| != 4 {
          return Err(EINVAL);
        }
        return Ok(Value(GetLe32(b), []));
      case Enum =>
        var x := NameFind(d, b);
        if x.None? {
          return Err(EINVAL);
        }
        return Ok(Value(x.value, []));
      case List =>
        var idx := DecodeList(d, b);
        return Ok(Value(0, idx));
      case Other =>
        return Err(EINVAL);
    }
  }

  method DecodeList(d: Def, b: Bytes) returns (idx: seq<U8>)
    ensures idx == Cut(Indexes(d, Pieces(b)))
  {
    idx := [];
    var start, p := 0, 0;
    assert b[0..] == b;
    assert [] + Indexes(d, Pieces(b)) == Indexes(d, Pieces(b));
    while p <= |b|
      invariant 0 <= start <= p <= |b| + 1
      invariant p <= |b| ==> forall k: nat | start <= k < p :: b[k] != COMMA
      invariant p > |b| ==> start == p
      invariant |idx| <= LIST_MAX
      invariant Cut(idx + Coming(d, b, start)) == Cut(Indexes(d, Pieces(b)))
    {
      if p == |b| || b[p] == COMMA {
        var x := NameFind(d, b[start..p]);
        NextPiece(d, b, start, p);
        TakeIndex(x, idx, Coming(d, b, p + 1));
        if x.Some? && |idx| < LIST_MAX {
          idx := idx + [x.value];
        }
        start := p + 1;
      }
      p := p + 1;
    }
    assert idx + [] == idx;
  }

  /** The indexes still to come when the next part starts at `start`. */
  function Coming(d: Def, b: Bytes, start: nat): seq<U8> {
    if start <= |b| then Indexes(d, Pieces(b[start..])) else []
  }

  lemma NextPiece(d: Def, b: Bytes, start: nat, p: nat)
    requires start <= p <= |b| && (p == |b| || b[p] == COMMA)
    requires forall k: nat | start <= k < p :: b[k] != COMMA
    ensures var x := NameIndex(d, b[start..p]);
            Coming(d, b, start) == (if x.Some? then [x.value] else []) + Coming(d, b, p + 1)
  {
    var piece := b[start..p];
    assert forall k: nat | k < |piece| :: piece[k] == b[start + k];
    assert COMMA !in piece;
    if p < |b| {
      FirstComma(piece, b[p + 1..]);
      assert b[start..] == piece + [COMMA] + b[p + 1..];
      assert ([piece] + Pieces(b[p + 1..]))[1..] == Pieces(b[p + 1..]);
    } else {
      OnePiece(piece);
      assert b[start..] == piece;
      assert Indexes(d, [piece][1..]) == [];
    }
  }

  lemma TakeIndex(x: Option<nat>, idx: seq<U8>, rest: seq<U8>)
    requires |idx| <= LIST_MAX && (x.Some? ==> x.value < 0x100)
    ensures var idx' := if x.Some? && |idx| < LIST_MAX then idx + [x.value] else idx;
            Cut(idx' + rest) == Cut(idx + ((if x.Some? then [x.value] else []) + rest))
  {
  }

  // ---------------------------------------------------------------------
  // Encoding
  // ---------------------------------------------------------------------

  function NameAt(d: Def, x: nat): Option<Bytes> {
    if x < |d.names| then Some(d.names[x]) else None
  }

  /** The list so far; the first name that is missing or does not fit ends it. */
  function EncodedList(d: Def, idx: seq<U8>, cap: nat): Result<Bytes, Errno> {
    if idx == [] then Ok([])
    else
      var r := EncodedList(d, idx[..|idx| - 1], cap);
      if r.Err? then r
      else
        var n := NameAt(d, idx[|idx| - 1]);
        if n.None? then Err(EINVAL)
        else
          var out := (if |idx| > 1 then r.value + [COMMA] else r.value) + n.value;
          if |out| > cap then Err(ENOMEM) else Ok(out)
  }

  function Encoded(d: Def, v: Value, cap: nat): Result<Bytes, Errno> {
    match d.typ
    case Bool | Uint | Color => if cap < 4 then Err(ENOMEM) else Ok(PutLe32(v.u))
    case Enum =>
      var n := NameAt(d, v.u % 0x100);
      if n.None? then Err(EINVAL) else if |n.value| > cap then Err(ENOMEM) else Ok(n.value)
    case List =>
      if v.idx != [] then EncodedList(d, v.idx, cap) else if cap < 1 then Err(ENOMEM) else Ok([COMMA])
    case Other => Err(EINVAL)
  }

  method Copy(buf: array<byte>, o: nat, b: Bytes)
    requires o + |b| <= buf.Length
    modifies buf
    ensures buf[..o + |b|] == old(buf[..o]) + b
  {
    var i := 0;
    while i < |b|
      invariant 0 <= i <= |b|
      invariant buf[..o + i] == old(buf[..o]) + b[..i]
    {
      buf[o + i] := b[i];
      i := i + 1;
    }
    assert b[..i] == b;
  }

  method Encode(d: Def, v: Value, buf: array<byte>) returns (r: Result<nat, Errno>)
    modifies buf
    ensures r.Ok? <==> Encoded(d, v, buf.Length).Ok?
    ensures r.Ok? ==> r.value <= buf.Length && buf[..r.value] == Encoded(d, v, buf.Length).value
    ensures r.Err? ==> r.error == Encoded(d, v, buf.Length).error
  {
    match d.typ {
      case Bool | Uint | Color =>
        if buf.Length < 4 {
          return Err(ENOMEM);
        }
        Copy(buf, 0, PutLe32(v.u));
        return Ok(4);
      case Enum =>
        var n := NameAt(d, v.u % 0x100);
        if n.None? {
          return Err(EINVAL);
        }
        if |n.value| > buf.Length {
          return Err(ENOMEM);
        }
        Copy(buf, 0, n.value);
        return Ok(|n.value|);
      case List =>
        if v.idx == [] {
          if buf.Length < 1 {
            return Err(ENOMEM);
          }
          buf[0] := COMMA;
          return Ok(1);
        }
        r := EncodeList(d, v.idx, buf);
      case Other =>
        return Err(EINVAL);
    }
  }

  method EncodeList(d: Def, idx: seq<U8>, buf: array<byte>) returns (r: Result<nat, Errno>)
    modifies buf
    ensures r.Ok? <==> EncodedList(d, idx, buf.Length).Ok?
    ensures r.Ok? ==> r.value <= buf.Length && buf[..r.value] == EncodedList(d, idx, buf.Length).value
    ensures r.Err? ==> r.error == EncodedList(d, idx, buf.Length).error
  {
    var o, j := 0, 0;
    while j < |idx|
      invariant 0 <= j <= |idx| && 0 <= o <= buf.Length
      invariant EncodedList(d, idx[..j], buf.Length) == Ok(buf[..o])
    {
      var n := NameAt(d, idx[j]);
      NextEncoded(d, idx, j, buf.Length);
      if n.None? {
        ErrorStays(d, idx, j + 1, buf.Length);
        return Err(EINVAL);
      }
      if o + (if j > 0 then 1 else 0) + |n.value| > buf.Length {
        ErrorStays(d, idx, j + 1, buf.Length);
        return Err(ENOMEM);
      }
      ghost var sofar := buf[..o];
      if j > 0 {
        buf[o] := COMMA;
        o := o + 1;
      }
      assert buf[..o] == sofar + if j > 0 then [COMMA] else [];
      Copy(buf, o, n.value);
      o := o + |n.value|;
      j := j + 1;
    }
    assert idx[..j] == idx;
    return Ok(o);
  }

  lemma NextEncoded(d: Def, idx: seq<U8>, j: nat, cap: nat)
    requires j < |idx| && EncodedList(d, idx[..j], cap).Ok?
    ensures var out := EncodedList(d, idx[..j], cap).value + (if j > 0 then [COMMA] else []);
            EncodedList(d, idx[..j + 1], cap) ==
              if NameAt(d, idx[j]).None? then Err(EINVAL)
              else if |out| + |NameAt(d, idx[j]).value| > cap then Err(ENOMEM)
              else Ok(out + NameAt(d, idx[j]).value)
  {
    assert idx[..j + 1][..j] == idx[..j] && idx[..j + 1][j] == idx[j];
    assert EncodedList(d, idx[..j], cap).value + [] == EncodedList(d, idx[..j], cap).value;
  }

  lemma {:induction false} ErrorStays(d: Def, idx: seq<U8>, j: nat, cap: nat)
    requires j <= |idx| && EncodedList(d, idx[..j], cap).Err?
    ensures EncodedList(d, idx, cap) == EncodedList(d, idx[..j], cap)
    decreases |idx|
  {
    if j == |idx| {
      assert idx[..j] == idx;
    } else {
      var most := idx[..|idx| - 1];
      assert most[..j] == idx[..j];
      ErrorStays(d, most, j, cap);
    }
  }

  // ---------------------------------------------------------------------
  // Encoding and decoding together
  // ---------------------------------------------------------------------

  function NamesOf(d: Def, idx: seq<U8>): (r: seq<Bytes>)
    requires InRange(idx, |d.names|)
    ensures |r| == |idx| && forall i: nat | i < |r| :: idx[i] in idx && r[i] == d.names[idx[i]]
  {
    seq(|idx|, i requires 0 <= i < |idx| => assert idx[i] in idx; d.names[idx[i]])
  }

  lemma {:induction false} EncodedListIsJoin(d: Def, idx: seq<U8>, cap: nat)
    requires InRange(idx, |d.names|)
    ensures var b := Join(NamesOf(d, idx));
            EncodedList(d, idx, cap) == if |b| <= cap then Ok(b) else Err(ENOMEM)
  {
    if idx != [] {
      var k := |idx| - 1;
      assert forall x | x in idx[..k] :: x in idx;
      EncodedListIsJoin(d, idx[..k], cap);
      assert NamesOf(d, idx)[..k] == NamesOf(d, idx[..k]);
      assert idx[k] in idx;
      if k == 0 {
        assert Join(NamesOf(d, idx)) == [] + d.names[idx[0]];
      }
    }
  }

  /** All names and a comma between each two. */
  function JoinedSize(names: seq<Bytes>): nat {
    if names == [] then 0
    else JoinedSize(names[..|names| - 1]) + |names[|names| - 1]| + if |names| > 1 then 1 else 0
  }

  lemma {:induction false} JoinSize(names: seq<Bytes>)
    ensures |Join(names)| == JoinedSize(names)
  {
    if |names| == 1 {
      assert JoinedSize(names[..0]) == 0;
    } else if names != [] {
      JoinSize(names[..|names| - 1]);
    }
  }

  /** What the stored form of a value takes. */
  function StoredSize(d: Def, v: Value): nat
    requires Checked(d, v) == Ok(v)
  {
    match d.typ
    case Enum => |d.names[v.u]|
    case List => if v.idx == [] then 1 else JoinedSize(NamesOf(d, v.idx))
    case _ => 4
  }

  /** A valid value can be stored exactly when its stored form fits, and takes
      that much; nothing else can go wrong. */
  lemma StoredIfItFits(d: Def, v: Value, cap: nat)
    requires Checked(d, v) == Ok(v)
    ensures if StoredSize(d, v) <= cap then Encoded(d, v, cap).Ok? && |Encoded(d, v, cap).value| == StoredSize(d, v)
            else Encoded(d, v, cap) == Err(ENOMEM)
    ensures d.typ.Bool? || d.typ.Uint? || d.typ.Color? ==> Encoded(d, v, BUF).Ok?
  {
    if d.typ.List? && v.idx != [] {
      EncodedListIsJoin(d, v.idx, cap);
      JoinSize(NamesOf(d, v.idx));
    }
  }

  /** A stored number always comes back; a name when it leads to its own
      index, and in a list when it has no comma; and the empty list when no
      name is empty. */
  predicate Faithful(d: Def, v: Value)
    requires Checked(d, v) == Ok(v)
  {
    match d.typ
    case Bool | Uint | Color => true
    case Enum => NameIndex(d, d.names[v.u]) == Some(v.u)
    case List =>
      if v.idx == [] then [] !in Known(d)
      else forall x | x in v.idx :: NameIndex(d, d.names[x]) == Some(x) && COMMA !in d.names[x]
    case Other => false
  }

  lemma {:induction false} IndexesOfNames(d: Def, idx: seq<U8>)
    requires InRange(idx, |d.names|)
    requires forall x | x in idx :: NameIndex(d, d.names[x]) == Some(x)
    ensures Indexes(d, NamesOf(d, idx)) == idx
  {
    if idx != [] {
      assert idx[0] in idx && forall x | x in idx[1..] :: x in idx;
      IndexesOfNames(d, idx[1..]);
      assert NamesOf(d, idx)[1..] == NamesOf(d, idx[1..]);
    }
  }

  lemma {:induction false} IndexesComeFromNames(d: Def, names: seq<Bytes>, x: U8)
    requires x in Indexes(d, names)
    ensures exists n :: n in names && NameIndex(d, n) == Some(x as nat)
  {
    var y := NameIndex(d, names[0]);
    if y == Some(x as nat) {
      assert names[0] in names;
    } else {
      IndexesComeFromNames(d, names[1..], x);
    }
  }

  lemma EmptyListComesBack(d: Def)
    ensures Cut(Indexes(d, Pieces([COMMA]))) == [] <==> [] !in Known(d)
  {
    assert [COMMA][1..] == [];
    var none: Bytes := [];
    assert Pieces([COMMA]) == [none, none];
    assert [none, none][1..] == [none];
    assert [none][1..] == [];
    assert Indexes(d, [none]) == if NameIndex(d, []).Some? then [NameIndex(d, []).value] else [];
  }

  lemma ListComesBack(d: Def, v: Value)
    requires d.typ.List? && Checked(d, v) == Ok(v) && v.idx != [] && Faithful(d, v)
    ensures Cut(Indexes(d, Pieces(Join(NamesOf(d, v.idx))))) == v.idx
  {
    var names := NamesOf(d, v.idx);
    PiecesOfJoin(names);
    IndexesOfNames(d, v.idx);
  }

  lemma OnlyFaithfulListsComeBack(d: Def, v: Value, b: Bytes)
    requires d.typ.List? && Checked(d, v) == Ok(v) && v.idx != []
    requires Cut(Indexes(d, Pieces(b))) == v.idx
    ensures Faithful(d, v)
  {
    PiecesAreCommaFree(b);
    forall x | x in v.idx
      ensures NameIndex(d, d.names[x]) == Some(x) && COMMA !in d.names[x]
    {
      IndexesComeFromNames(d, Pieces(b), x);
    }
  }

  /** Exactly the faithful values come back from their stored form. */
  lemma RoundTrip(d: Def, v: Value, cap: nat)
    requires Checked(d, v) == Ok(v) && Encoded(d, v, cap).Ok?
    ensures Decoded(d, Encoded(d, v, cap).value) == Ok(v) <==> Faithful(d, v)
  {
    var b := Encoded(d, v, cap).value;
    match d.typ {
      case Bool | Uint | Color => Le32RoundTrip(v.u);
      case Enum =>
      case List =>
        if v.idx == [] {
          EmptyListComesBack(d);
        } else {
          EncodedListIsJoin(d, v.idx, cap);
          if Faithful(d, v) {
            ListComesBack(d, v);
          }
          if Decoded(d, b) == Ok(v) {
            OnlyFaithfulListsComeBack(d, v, b);
          }
        }
      case Other =>
    }
  }

  /** Names as a table should have them. */
  ghost predicate WellNamed(d: Def) {
    Distinct(Known(d)) && [] !in Known(d) && CommaFree(Known(d))
  }

  lemma WellNamedIsFaithful(d: Def, v: Value)
    requires Checked(d, v) == Ok(v) && WellNamed(d)
    ensures Faithful(d, v)
  {
    forall x: nat | x < NameCount(d)
      ensures NameIndex(d, d.names[x]) == Some(x) && COMMA !in d.names[x] && d.names[x] != []
    {
      assert Known(d)[x] == d.names[x] && Known(d)[x] in Known(d);
      FirstIndexUnique(Known(d), d.names[x], x);
    }
  }

  /** When nothing is left of a value in its stored form. */
  lemma NeverEmpty(d: Def, v: Value, cap: nat)
    requires Checked(d, v) == Ok(v) && Encoded(d, v, cap).Ok?
    ensures Encoded(d, v, cap).value == [] <==>
              || (d.typ.Enum? && d.names[v.u] == [])
              || (d.typ.List? && |v.idx| == 1 && d.names[v.idx[0]] == [])
  {
    if d.typ.List? && v.idx != [] {
      EncodedListIsJoin(d, v.idx, cap);
      assert v.idx[0] in v.idx;
    }
  }

  // ---------------------------------------------------------------------
  // Another table of names
  // ---------------------------------------------------------------------

  function Kept(names: seq<Bytes>, known: seq<Bytes>): seq<Bytes> {
    if names == [] then []
    else (if names[0] in known then [names[0]] else []) + Kept(names[1..], known)
  }

  lemma {:induction false} IndexesInRange(d: Def, names: seq<Bytes>)
    ensures InRange(Indexes(d, names), NameCount(d))
  {
    if names != [] {
      IndexesInRange(d, names[1..]);
    }
  }

  lemma {:induction false} IndexesKeepNames(d: Def, names: seq<Bytes>)
    requires InRange(Indexes(d, names), NameCount(d))
    ensures NamesOf(d, Indexes(d, names)) == Kept(names, Known(d))
  {
    if names != [] {
      var rest := Indexes(d, names[1..]);
      IndexesInRange(d, names[1..]);
      IndexesKeepNames(d, names[1..]);
      var x := NameIndex(d, names[0]);
      if x.Some? {
        var all := [x.value] + rest;
        assert NamesOf(d, all)[0] == names[0];
        assert NamesOf(d, all)[1..] == NamesOf(d, rest);
      } else {
        assert [] + rest == rest;
      }
    }
  }

  /** Whatever is stored decodes to the names that are known now, in their
      order, cut at the longest list. */
  lemma DecodedNames(d: Def, b: Bytes)
    requires d.typ.List?
    ensures Decoded(d, b).Ok? && InRange(Decoded(d, b).value.idx, NameCount(d))
    ensures var kept := Kept(Pieces(b), Known(d));
            NamesOf(d, Decoded(d, b).value.idx) == kept[..Min(|kept|, LIST_MAX)]
  {
    var xs := Indexes(d, Pieces(b));
    IndexesInRange(d, Pieces(b));
    IndexesKeepNames(d, Pieces(b));
    assert InRange(Cut(xs), NameCount(d)) by { assert forall x | x in Cut(xs) :: x in xs; }
    assert NamesOf(d, Cut(xs)) == NamesOf(d, xs)[..Min(|xs|, LIST_MAX)];
  }

  lemma {:induction false} KeptIsNoLonger(names: seq<Bytes>, known: seq<Bytes>)
    ensures |Kept(names, known)| <= |names|
    ensures forall n | n in Kept(names, known) :: n in names && n in known
    ensures Distinct(names) ==> Distinct(Kept(names, known))
  {
    if names != [] {
      KeptIsNoLonger(names[1..], known);
      assert forall n | n in names[1..] :: n in names;
      if Distinct(names) {
        assert names[0] !in names[1..];
      }
    }
  }

  lemma StoredNames(was: Def, v: Value, cap: nat)
    requires was.typ.List? && Checked(was, v) == Ok(v) && Encoded(was, v, cap).Ok?
    requires v.idx != [] && CommaFree(NamesOf(was, v.idx))
    ensures Pieces(Encoded(was, v, cap).value) == NamesOf(was, v.idx)
  {
    EncodedListIsJoin(was, v.idx, cap);
    PiecesOfJoin(NamesOf(was, v.idx));
  }

  /** A list stored by one firmware and loaded by another keeps exactly the
      names both know, in order. */
  lemma MigratedNames(was: Def, now: Def, v: Value, cap: nat)
    requires was.typ.List? && now.typ.List? && Checked(was, v) == Ok(v) && Encoded(was, v, cap).Ok?
    requires if v.idx == [] then [] !in Known(now) else CommaFree(NamesOf(was, v.idx))
    ensures var r := Decoded(now, Encoded(was, v, cap).value);
            && r.Ok? && InRange(r.value.idx, NameCount(now))
            && NamesOf(now, r.value.idx) == Kept(NamesOf(was, v.idx), Known(now))
  {
    if v.idx == [] {
      EmptyListComesBack(now);
    } else {
      var names := NamesOf(was, v.idx);
      StoredNames(was, v, cap);
      DecodedNames(now, Encoded(was, v, cap).value);
      KeptIsNoLonger(names, Known(now));
    }
  }

  /** And the checks accept what is kept as it is, when it is without
      repeats. */
  lemma Migration(was: Def, now: Def, v: Value, cap: nat)
    requires was.typ.List? && now.typ.List? && Checked(was, v) == Ok(v) && Encoded(was, v, cap).Ok?
    requires if v.idx == [] then [] !in Known(now) else CommaFree(NamesOf(was, v.idx))
    requires Distinct(NamesOf(was, v.idx))
    ensures var r := Decoded(now, Encoded(was, v, cap).value);
            r.Ok? && Checked(now, r.value) == r
  {
    MigratedNames(was, now, v, cap);
    KeptIsNoLonger(NamesOf(was, v.idx), Known(now));
    DistinctIndexes(now, Decoded(now, Encoded(was, v, cap).value).value.idx);
  }

  /** With names as they should be in both tables nothing else is needed. */
  lemma WellNamedMigrates(was: Def, now: Def, v: Value)
    requires was.typ.List? && WellNamed(was) && WellNamed(now) && Checked(was, v) == Ok(v)
    ensures if v.idx == [] then [] !in Known(now) else CommaFree(NamesOf(was, v.idx))
    ensures Distinct(NamesOf(was, v.idx))
  {
    CheckedIsValid(was, v);
    DistinctNames(was, v.idx);
    forall n | n in NamesOf(was, v.idx)
      ensures COMMA !in n
    {
      var i: nat :| i < |v.idx| && NamesOf(was, v.idx)[i] == n;
      assert n == Known(was)[v.idx[i]];
    }
  }

  lemma DistinctNames(d: Def, idx: seq<U8>)
    requires InRange(idx, NameCount(d)) && Distinct(idx) && Distinct(Known(d))
    ensures Distinct(NamesOf(d, idx))
  {
  }

  lemma DistinctIndexes(d: Def, idx: seq<U8>)
    requires InRange(idx, NameCount(d)) && Distinct(NamesOf(d, idx))
    ensures Distinct(idx) && Dedup(idx) == idx
  {
  }
}
