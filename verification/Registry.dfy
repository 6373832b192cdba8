/** The settings registry: a table of typed settings, their values, and what a
    caller may do to them. */
module Registry {
  import opened Wrappers
  import opened Bytes

  const MAX: nat := 32        // settings in one table
  const LIST_MAX: nat := 16   // entries of a list value
  const KEY_MAX: nat := 31
  const NAME_MAX: nat := 255  // names are counted in 8 bits

  type U8 = x: int | 0 <= x < 0x100
  type U32 = x: int | 0 <= x < 0x1_0000_0000

  datatype Type = Bool | Uint | Enum | Color | List | Other

  datatype Def = Def(key: Bytes, typ: Type, readOnly: bool, proxy: bool, min: U32, max: U32, def: U32,
                     names: seq<Bytes>, hasGet: bool, hasSet: bool, arg: U8, notifies: bool)

  /** A list value uses `idx`, every other value `u`. */
  datatype Value = Value(u: U32, idx: seq<U8>)

  datatype Errno = EINVAL | ENOENT | EACCES | ENOMEM

  // ---------------------------------------------------------------------
  // Names
  // ---------------------------------------------------------------------

  function FirstIndex<T(==)>(xs: seq<T>, x: T): (r: Option<nat>)
    ensures r.None? <==> x !in xs
    ensures r.Some? ==> r.value < |xs| && xs[r.value] == x && forall k: nat | k < r.value :: xs[k] != x
  {
    if xs == [] then None
    else
      var r := FirstIndex(xs[..|xs| - 1], x);
      if r.Some? then r
      else if xs[|xs| - 1] == x then Some(|xs| - 1)
      else None
  }

  function NameCount(d: Def): nat {
    if |d.names| < NAME_MAX then |d.names| else NAME_MAX
  }

  /** The names that can be found. */
  function Known(d: Def): seq<Bytes> {
    d.names[..NameCount(d)]
  }

  function NameIndex(d: Def, s: Bytes): (r: Option<nat>)
    ensures r.None? <==> s !in Known(d)
    ensures r.Some? ==> r.value < NameCount(d) && d.names[r.value] == s
  {
    FirstIndex(Known(d), s)
  }

  method NameFind(d: Def, s: Bytes) returns (r: Option<nat>)
    ensures r == NameIndex(d, s)
  {
    var n := NameCount(d);
    var j := 0;
    while j < n
      invariant 0 <= j <= n
      invariant forall k: nat | k < j :: Known(d)[k] != s
    {
      if d.names[j] == s {
        FirstIndexUnique(Known(d), s, j);
        return Some(j);
      }
      j := j + 1;
    }
    return None;
  }

  lemma FirstIndexUnique<T>(xs: seq<T>, x: T, j: nat)
    requires j < |xs| && xs[j] == x && forall k: nat | k < j :: xs[k] != x
    ensures FirstIndex(xs, x) == Some(j)
  {
  }

  // ---------------------------------------------------------------------
  // Checks
  // ---------------------------------------------------------------------

  ghost predicate Distinct<T(!new)>(xs: seq<T>) {
    forall i: nat, j: nat | i < j < |xs| :: xs[i] != xs[j]
  }

  /** The first of equal entries stays. */
  function Dedup(xs: seq<U8>): seq<U8> {
    if xs == [] then []
    else
      var r, x := Dedup(xs[..|xs| - 1]), xs[|xs| - 1];
      if x in r then r else r + [x]
  }

  lemma {:induction false} DedupKeepsAll(xs: seq<U8>)
    ensures forall x :: x in Dedup(xs) <==> x in xs
    ensures |Dedup(xs)| <= |xs|
  {
    if xs != [] {
      DedupKeepsAll(xs[..|xs| - 1]);
      assert xs == xs[..|xs| - 1] + [xs[|xs| - 1]];
    }
  }

  lemma DedupNext(xs: seq<U8>, j: nat)
    requires j < |xs|
    ensures Dedup(xs[..j + 1]) == if xs[j] in Dedup(xs[..j]) then Dedup(xs[..j]) else Dedup(xs[..j]) + [xs[j]]
  {
    var ys := xs[..j + 1];
    assert ys[..|ys| - 1] == xs[..j] && ys[|ys| - 1] == xs[j];
  }

  /** Without duplicates, in the order of the first occurrences. */
  lemma {:induction false} DedupKeepsTheFirst(xs: seq<U8>)
    ensures Distinct(Dedup(xs))
    ensures forall x | x in Dedup(xs) :: x in xs
    ensures forall i: nat, j: nat | i < j < |Dedup(xs)| ::
              FirstIndex(xs, Dedup(xs)[i]).value < FirstIndex(xs, Dedup(xs)[j]).value
  {
    if xs != [] {
      var ys, x := xs[..|xs| - 1], xs[|xs| - 1];
      DedupKeepsTheFirst(ys);
      DedupKeepsAll(xs);
      DedupKeepsAll(ys);
      forall y | y in ys
        ensures FirstIndex(xs, y) == FirstIndex(ys, y)
      {
      }
      assert x !in ys ==> FirstIndex(xs, x) == Some(|ys|);
    }
  }

  lemma {:induction false} DedupOfDistinct(xs: seq<U8>)
    requires Distinct(xs)
    ensures Dedup(xs) == xs
  {
    if xs != [] {
      DedupOfDistinct(xs[..|xs| - 1]);
      assert xs == xs[..|xs| - 1] + [xs[|xs| - 1]];
    }
  }

  predicate InRange(xs: seq<U8>, n: nat) {
    forall x | x in xs :: x < n
  }

  /** A valid value in its normal form. */
  function Checked(d: Def, v: Value): Result<Value, Errno> {
    match d.typ
    case Bool => if v.u > 1 then Err(EINVAL) else Ok(Value(v.u, []))
    case Uint => if v.u < d.min || v.u > d.max then Err(EINVAL) else Ok(Value(v.u, []))
    case Enum => if v.u >= NameCount(d) then Err(EINVAL) else Ok(Value(v.u, []))
    case Color => if v.u > 0xFFFFFF then Err(EINVAL) else Ok(Value(v.u, []))
    case List =>
      if |v.idx| > LIST_MAX || !InRange(v.idx, NameCount(d)) then Err(EINVAL)
      else Ok(Value(0, Dedup(v.idx)))
    case Other => Err(EINVAL)
  }

  method Check(d: Def, v: Value) returns (r: Result<Value, Errno>)
    ensures r == Checked(d, v)
  {
    match d.typ {
      case Bool => if v.u > 1 { return Err(EINVAL); }
      case Uint => if v.u < d.min || v.u > d.max { return Err(EINVAL); }
      case Enum => if v.u >= NameCount(d) { return Err(EINVAL); }
      case Color => if v.u > 0xFFFFFF { return Err(EINVAL); }
      case List => r := CheckList(d, v); return;
      case Other => return Err(EINVAL);
    }
    return Ok(Value(v.u, []));
  }

  method CheckList(d: Def, v: Value) returns (r: Result<Value, Errno>)
    requires d.typ.List?
    ensures r == Checked(d, v)
  {
    var n := NameCount(d);
    if |v.idx| > LIST_MAX {
      return Err(EINVAL);
    }
    var out: seq<U8> := [];
    var j := 0;
    while j < |v.idx|
      invariant j <= |v.idx|
      invariant out == Dedup(v.idx[..j])
      invariant InRange(v.idx[..j], n)
    {
      var x := v.idx[j];
      if x >= n {
        assert v.idx[j] in v.idx;
        return Err(EINVAL);
      }
      var dup, k := false, 0;
      while k < |out|
        invariant k <= |out|
        invariant dup <==> x in out[..k]
      {
        dup := dup || out[k] == x;
        k := k + 1;
      }
      assert out[..k] == out;
      DedupNext(v.idx, j);
      assert v.idx[..j + 1] == v.idx[..j] + [x];
      if !dup {
        out := out + [x];
      }
      j := j + 1;
    }
    assert v.idx[..j] == v.idx;
    return Ok(Value(0, out));
  }

  /** A value that came out of the checks passes them again, unchanged. */
  lemma CheckIsIdempotent(d: Def, v: Value)
    requires Checked(d, v).Ok?
    ensures Checked(d, Checked(d, v).value) == Checked(d, v)
  {
    if d.typ.List? {
      var w := Dedup(v.idx);
      DedupKeepsTheFirst(v.idx);
      DedupOfDistinct(w);
      DedupKeepsAll(v.idx);
      assert Checked(d, Value(0, w)) == Ok(Value(0, w));
    }
  }

  /** What the checks let pass, and nothing else; there is one error. */
  lemma AcceptsExactly(d: Def, v: Value)
    ensures Checked(d, v).Ok? <==>
            match d.typ
            case Bool => v.u == 0 || v.u == 1
            case Uint => d.min <= v.u <= d.max
            case Enum => v.u < |d.names| && v.u < 255
            case Color => v.u <= 0xFFFFFF
            case List => |v.idx| <= 16 && forall i: nat | i < |v.idx| :: v.idx[i] < |d.names| && v.idx[i] < 255
            case Other => false
    ensures Checked(d, v).Err? ==> Checked(d, v).error == EINVAL
  {
    if d.typ.List? {
      forall i: nat | i < |v.idx|
        ensures v.idx[i] in v.idx
      {
      }
      if forall i: nat | i < |v.idx| :: v.idx[i] < NameCount(d) {
        assert InRange(v.idx, NameCount(d));
      }
    }
  }

  /** What the checks make sure of. */
  lemma CheckedIsValid(d: Def, v: Value)
    requires Checked(d, v).Ok?
    ensures var w := Checked(d, v).value;
            match d.typ
            case List => w.u == 0 && |w.idx| <= LIST_MAX && Distinct(w.idx)
                         && (forall x :: x in w.idx <==> x in v.idx)
                         && (forall x | x in w.idx :: x < NameCount(d))
            case Enum => w.u == v.u < NameCount(d) && w.idx == []
            case Uint => d.min <= w.u == v.u <= d.max && w.idx == []
            case Bool => w.u == v.u <= 1 && w.idx == []
            case Color => w.u == v.u < 0x100_0000 && w.idx == []
            case Other => false
  {
    if d.typ.List? {
      DedupKeepsTheFirst(v.idx);
      DedupKeepsAll(v.idx);
    }
  }

  // ---------------------------------------------------------------------
  // The table
  // ---------------------------------------------------------------------

  function UpTo(n: nat): (r: seq<U8>)
    requires n <= 256
    ensures |r| == n && forall i: nat | i < n :: r[i] == i
  {
    seq(n, i requires 0 <= i < n => i)
  }

  function DefaultOf(d: Def): Value {
    if d.typ.List? then Value(0, UpTo(Min(NameCount(d), LIST_MAX))) else Value(d.def, [])
  }

  predicate ValidDef(d: Def) {
    && 0 < |d.key| <= KEY_MAX
    && (d.proxy ==> !d.typ.List? && d.hasGet && (d.readOnly || d.hasSet))
    && (d.readOnly ==> d.proxy)
    && (d.typ.Enum? || d.typ.List? ==> NameCount(d) > 0)
    && (d.typ.List? ==> NameCount(d) <= LIST_MAX)
    && (d.typ.Uint? ==> d.min <= d.max)
    && Checked(d, DefaultOf(d)).Ok?
  }

  /** Which settings a table may have: a key that fits, a default that the type
      takes, and names for an enum and a list, of which a list has few.  A value
      that lives with its owner is no list and can be got there, and set unless
      it is read-only; only such a value may be read-only. */
  lemma ValidWhen(d: Def)
    ensures ValidDef(d) <==>
              && 1 <= |d.key| <= 31
              && (match d.typ
                  case Bool => d.def <= 1
                  case Uint => d.min <= d.def <= d.max
                  case Enum => d.def < |d.names| && d.def < 255
                  case Color => d.def <= 0xFFFFFF
                  case List => 1 <= |d.names| <= 16
                  case Other => false)
              && (d.readOnly ==> d.proxy) && (d.proxy ==> !d.typ.List? && d.hasGet && (d.hasSet || d.readOnly))
  {
    AcceptsExactly(d, DefaultOf(d));
  }

  /** List settings among the first n. */
  function ListsBefore(ds: seq<Def>, n: nat): (r: nat)
    requires n <= |ds|
    ensures r <= n
  {
    if n == 0 then 0 else ListsBefore(ds, n - 1) + if ds[n - 1].typ.List? then 1 else 0
  }

  lemma {:induction false} SlotsApart(ds: seq<Def>, i: nat, j: nat)
    requires i < j <= |ds| && ds[i].typ.List?
    ensures ListsBefore(ds, i) < ListsBefore(ds, j)
  {
    if i + 1 < j {
      SlotsApart(ds, i, j - 1);
    }
  }

  function Keys(ds: seq<Def>): (r: seq<Bytes>)
    ensures |r| == |ds| && forall i: nat | i < |r| :: r[i] == ds[i].key
  {
    seq(|ds|, i requires 0 <= i < |ds| => ds[i].key)
  }

  function KeyIndex(ds: seq<Def>, key: Bytes): Option<nat> {
    FirstIndex(Keys(ds), key)
  }

  /** A setting that may stand at index i: valid, and with a key of its own. */
  predicate ValidAt(ds: seq<Def>, i: nat)
    requires i < |ds|
  {
    ValidDef(ds[i]) && ds[i].key !in Keys(ds)[..i]
  }

  ghost predicate ValidTable(ds: seq<Def>, slots: nat) {
    && |ds| <= MAX && ListsBefore(ds, |ds|) <= slots
    && forall i: nat {:trigger ValidAt(ds, i)} | i < |ds| :: ValidAt(ds, i)
  }

  ghost function Lists(ds: seq<Def>, n: nat): set<nat>
    requires n <= |ds|
  {
    set i: nat | i < n && ds[i].typ.List?
  }

  lemma {:induction false} ListsAreCounted(ds: seq<Def>, n: nat)
    requires n <= |ds|
    ensures ListsBefore(ds, n) == |Lists(ds, n)|
  {
    if n > 0 {
      ListsAreCounted(ds, n - 1);
      if ds[n - 1].typ.List? {
        assert Lists(ds, n) == Lists(ds, n - 1) + {n - 1};
      } else {
        assert Lists(ds, n) == Lists(ds, n - 1);
      }
    }
  }

  /** Which tables there may be: at most 32 valid settings, with keys that differ,
      and a slot for each list. */
  lemma TableWhen(ds: seq<Def>, slots: nat)
    ensures ValidTable(ds, slots) <==>
              && |ds| <= 32 && |Lists(ds, |ds|)| <= slots
              && (forall i: nat | i < |ds| :: ValidDef(ds[i]))
              && forall i: nat, j: nat | i < j < |ds| :: ds[i].key != ds[j].key
  {
    ListsAreCounted(ds, |ds|);
    if ValidTable(ds, slots) {
      forall i: nat, j: nat | i < j < |ds|
        ensures ValidDef(ds[i]) && ds[i].key != ds[j].key
      {
        assert ValidAt(ds, i) && ValidAt(ds, j);
        assert Keys(ds)[..j][i] == ds[i].key;
      }
      assert forall i: nat | i < |ds| :: ValidAt(ds, i) ==> ValidDef(ds[i]);
    }
  }

  /** Every setting of a valid table is found by its key. */
  lemma TableEntry(ds: seq<Def>, slots: nat, i: nat)
    requires i < |ds| && ValidTable(ds, slots)
    ensures ValidDef(ds[i]) && KeyIndex(ds, ds[i].key) == Some(i)
  {
    assert ValidAt(ds, i);
    FirstIndexUnique(Keys(ds), ds[i].key, i);
  }

  method Acceptable(ds: seq<Def>, slots: nat) returns (ok: bool)
    ensures ok <==> ValidTable(ds, slots)
  {
    if |ds| > MAX {
      return false;
    }
    var lists := 0;
    var i := 0;
    while i < |ds|
      invariant 0 <= i <= |ds|
      invariant lists == ListsBefore(ds, i)
      invariant forall k: nat {:trigger ValidAt(ds, k)} | k < i :: ValidAt(ds, k)
    {
      var unused := NewKey(ds, i);
      if !ValidDef(ds[i]) || !unused {
        assert !ValidAt(ds, i);
        return false;
      }
      if ds[i].typ.List? {
        lists := lists + 1;
      }
      i := i + 1;
    }
    return lists <= slots;
  }

  method NewKey(ds: seq<Def>, i: nat) returns (unused: bool)
    requires i < |ds|
    ensures unused <==> ds[i].key !in Keys(ds)[..i]
  {
    var j := 0;
    while j < i
      invariant 0 <= j <= i
      invariant ds[i].key !in Keys(ds)[..j]
    {
      if ds[i].key == ds[j].key {
        assert Keys(ds)[..i][j] == ds[i].key;
        return false;
      }
      j := j + 1;
    }
    return true;
  }

  method FindKey(ds: seq<Def>, key: Bytes) returns (r: Option<nat>)
    ensures r == KeyIndex(ds, key)
  {
    var i := 0;
    while i < |ds|
      invariant 0 <= i <= |ds|
      invariant forall k: nat | k < i :: Keys(ds)[k] != key
    {
      if ds[i].key == key {
        FirstIndexUnique(Keys(ds), key, i);
        return Some(i);
      }
      i := i + 1;
    }
    return None;
  }

  // ---------------------------------------------------------------------
  // Cycling through a list
  // ---------------------------------------------------------------------

  /** The name index after cur, for a setting with n names. */
  function After(list: seq<U8>, n: nat, cur: nat): nat {
    if list == [] then if n == 0 then 0 else (cur + 1) % n
    else
      var at := FirstIndex(list, cur);
      if at.Some? then list[(at.value + 1) % |list|] else list[0]
  }

  function Steps(list: seq<U8>, n: nat, cur: nat, k: nat): nat {
    if k == 0 then cur else After(list, n, Steps(list, n, cur, k - 1))
  }

  method NextInList(list: seq<U8>, n: nat, cur: nat) returns (r: nat)
    requires n > 0 && InRange(list, n)
    ensures r == After(list, n, cur) && r < n
  {
    if list == [] {
      return (cur + 1) % n;
    }
    var j := 0;
    while j < |list|
      invariant 0 <= j <= |list|
      invariant forall k: nat | k < j :: list[k] != cur
    {
      if list[j] == cur {
        FirstIndexUnique(list, cur, j);
        assert list[(j + 1) % |list|] in list;
        return list[(j + 1) % |list|];
      }
      j := j + 1;
    }
    assert list[0] in list;
    return list[0];
  }

  /** From a name that is not in the list it goes on at the first entry, from the
      last entry as well. */
  lemma AfterUnlisted(list: seq<U8>, n: nat, cur: nat)
    requires list != []
    ensures cur !in list ==> After(list, n, cur) == list[0]
    ensures Distinct(list) && cur == list[|list| - 1] ==> After(list, n, cur) == list[0]
  {
  }

  function Wrapped(x: nat, n: nat): (r: nat)
    requires x < 2 * n
    ensures r < n
  {
    if x < n then x else x - n
  }

  lemma NextIndex(at: nat, n: nat)
    requires at < n
    ensures (at + 1) % n == Wrapped(at + 1, n)
  {
  }

  lemma AfterListed(list: seq<U8>, n: nat, p: nat)
    requires Distinct(list) && p < |list|
    ensures After(list, n, list[p]) == list[Wrapped(p + 1, |list|)]
  {
  }

  lemma {:induction false} StepsWalkTheList(list: seq<U8>, n: nat, at: nat, k: nat)
    requires n > 0 && Distinct(list) && at < |list| && k <= |list|
    ensures Steps(list, n, list[at], k) == list[Wrapped(at + k, |list|)]
  {
    if k > 0 {
      StepsWalkTheList(list, n, at, k - 1);
      AfterListed(list, n, Wrapped(at + k - 1, |list|));
    }
  }

  /** From a listed entry the whole list comes by before the first comes again. */
  lemma CycleVisitsAll(list: seq<U8>, n: nat, at: nat, x: U8) returns (k: nat)
    requires n > 0 && Distinct(list) && at < |list| && x in list
    ensures k < |list| && Steps(list, n, list[at], k) == x
    ensures Steps(list, n, list[at], |list|) == list[at]
  {
    StepsWalkTheList(list, n, at, |list|);
    var i: nat :| i < |list| && list[i] == x;
    k := if i >= at then i - at else i + |list| - at;
    StepsWalkTheList(list, n, at, k);
  }

  /** And each entry once. */
  lemma CycleVisitsOnce(list: seq<U8>, n: nat, at: nat, j: nat, k: nat)
    requires n > 0 && Distinct(list) && at < |list| && j < k < |list|
    ensures Steps(list, n, list[at], j) != Steps(list, n, list[at], k)
  {
    StepsWalkTheList(list, n, at, j);
    StepsWalkTheList(list, n, at, k);
  }

  /** With an empty list the names come by in table order. */
  lemma {:induction false} EmptyListWalksTheNames(n: nat, cur: nat, k: nat)
    requires cur < n && k <= n
    ensures Steps([], n, cur, k) == Wrapped(cur + k, n)
  {
    if k > 0 {
      EmptyListWalksTheNames(n, cur, k - 1);
      NextIndex(Wrapped(cur + k - 1, n), n);
    }
  }

  // ---------------------------------------------------------------------
  // Values of a whole table
  // ---------------------------------------------------------------------

  /** Value i passes the checks of its setting and is in normal form, if it
      lives in the registry. */
  ghost predicate Fits(ds: seq<Def>, vs: seq<Value>, i: nat)
    requires i < |ds| == |vs|
  {
    ds[i].proxy || Checked(ds[i], vs[i]) == Ok(vs[i])
  }

  ghost predicate AllFit(ds: seq<Def>, vs: seq<Value>) {
    |ds| == |vs| && forall i: nat {:trigger Fits(ds, vs, i)} | i < |ds| :: Fits(ds, vs, i)
  }

  lemma FitsStill(ds: seq<Def>, vs: seq<Value>, i: nat, v: Value)
    requires AllFit(ds, vs) && i < |ds| && Checked(ds[i], v) == Ok(v)
    ensures AllFit(ds, vs[i := v])
  {
    var ws := vs[i := v];
    forall j: nat | j < |ds|
      ensures Fits(ds, ws, j)
    {
      assert Fits(ds, vs, j);
    }
  }

  function Defaults(ds: seq<Def>): (r: seq<Value>)
    ensures |r| == |ds| && forall i: nat | i < |ds| :: r[i] == DefaultOf(ds[i])
  {
    seq(|ds|, i requires 0 <= i < |ds| => DefaultOf(ds[i]))
  }

  lemma DefaultsFit(ds: seq<Def>, slots: nat)
    requires ValidTable(ds, slots)
    ensures AllFit(ds, Defaults(ds))
  {
    forall i: nat | i < |ds|
      ensures Fits(ds, Defaults(ds), i)
    {
      assert ValidAt(ds, i);
      DefaultIsChecked(ds[i]);
    }
  }

  lemma DefaultIsChecked(d: Def)
    requires ValidDef(d)
    ensures Checked(d, DefaultOf(d)) == Ok(DefaultOf(d))
  {
    if d.typ.List? {
      DedupOfDistinct(DefaultOf(d).idx);
    }
  }

  function SetRc(ds: seq<Def>, i: nat, v: Value): Option<Errno> {
    if i >= |ds| then Some(ENOENT)
    else if ds[i].readOnly then Some(EACCES)
    else if Checked(ds[i], v).Err? then Some(EINVAL)
    else None
  }

  function LoadRc(ds: seq<Def>, i: nat, v: Value): Option<Errno> {
    if i >= |ds| then Some(ENOENT)
    else if ds[i].readOnly || ds[i].proxy then Some(EACCES)
    else if Checked(ds[i], v).Err? then Some(EINVAL)
    else None
  }

  /** Which error a set or a load gets, in this order; none otherwise. */
  lemma RefusedWhen(ds: seq<Def>, i: nat, v: Value)
    ensures SetRc(ds, i, v) == Some(ENOENT) <==> i >= |ds|
    ensures LoadRc(ds, i, v) == Some(ENOENT) <==> i >= |ds|
    ensures SetRc(ds, i, v) == Some(EACCES) <==> i < |ds| && ds[i].readOnly
    ensures LoadRc(ds, i, v) == Some(EACCES) <==> i < |ds| && (ds[i].readOnly || ds[i].proxy)
    ensures i < |ds| && !ds[i].readOnly ==> (SetRc(ds, i, v) == None <==> Checked(ds[i], v).Ok?)
    ensures i < |ds| && !ds[i].readOnly && !ds[i].proxy ==> (LoadRc(ds, i, v) == None <==> Checked(ds[i], v).Ok?)
    ensures i < |ds| && Checked(ds[i], v).Err? ==> SetRc(ds, i, v) in {Some(EACCES), Some(EINVAL)}
    ensures i < |ds| && Checked(ds[i], v).Err? ==> LoadRc(ds, i, v) in {Some(EACCES), Some(EINVAL)}
  {
  }

  /** The default of a list setting is all its names in order, of any other the
      number in the table. */
  lemma DefaultIs(d: Def)
    requires ValidDef(d)
    ensures if d.typ.List?
            then |DefaultOf(d).idx| == |d.names| && forall i: nat | i < |d.names| :: DefaultOf(d).idx[i] == i
            else DefaultOf(d) == Value(d.def, [])
  {
  }

  // ---------------------------------------------------------------------
  // The registry
  // ---------------------------------------------------------------------

  class Registry {
    var defs: seq<Def>
    var vals: array<U32>        // a list setting has its slot number here
    var lists: array<seq<U8>>
    var rev: U32
    var dirty: set<nat>
    var owner: map<U8, U32>     // what the owners of proxied settings hold
    var told: map<nat, Value>   // what an owner read when it was last notified
    ghost var user: map<nat, nat>   // the list setting that has a slot
    ghost var values: seq<Value>

    /** Storage for every setting, and a slot of its own for every list. */
    ghost predicate Shape()
      reads this, vals
    {
      && |defs| <= MAX && |defs| <= vals.Length
      && ValidTable(defs, lists.Length)
      && (forall i: nat | i < |defs| && defs[i].typ.List? ::
          vals[i] < lists.Length && vals[i] in user && user[vals[i]] == i)
    }

    /** What setting i is now. */
    function Current(i: nat): Value
      requires i < |defs| <= vals.Length && (defs[i].typ.List? ==> vals[i] < lists.Length)
      reads this, vals, lists
    {
      if defs[i].typ.List? then Value(0, lists[vals[i]])
      else Value(if !defs[i].proxy then vals[i] else if defs[i].arg in owner then owner[defs[i].arg] else 0, [])
    }

    /** `values` is what the storage holds; only settings that live here are
        ever dirty.  Also between the steps of a set. */
    ghost predicate Stored()
      reads this, vals, lists
    {
      && Shape()
      && AllFit(defs, values)
      && (forall i: nat | i < |defs| && !defs[i].proxy :: Current(i) == values[i])
      && (forall i | i in dirty :: i < |defs| && !defs[i].proxy)
    }

    /** `values` is what the owners were told, but for setting x. */
    ghost predicate ToldBut(x: int)
      reads this`defs, this`values, this`told
    {
      && |values| == |defs|
      && forall i: nat | i < |defs| && i != x && !defs[i].proxy && defs[i].notifies ::
           i in told && told[i] == values[i]
    }

    ghost predicate Valid()
      reads this, vals, lists
    {
      Stored() && ToldBut(-1)
    }

    constructor ()
      ensures Valid() && defs == [] && rev == 0 && dirty == {}
      ensures fresh(vals) && fresh(lists)
    {
      defs, rev, dirty, owner, told, values := [], 0, {}, map[], map[], [];
      user := map[];
      vals, lists := new U32[0], new seq<U8>[0];
    }

    /** A checked value goes to its slot, its owner or its word. */
    method Put(i: nat, v: Value)
      requires Shape() && i < |defs| && Checked(defs[i], v) == Ok(v)
      modifies this`owner, vals, lists
      ensures Shape()
      ensures !defs[i].proxy ==> Current(i) == v && owner == old(owner)
      ensures defs[i].proxy ==> owner == old(owner)[defs[i].arg := v.u]
      ensures forall j: nat | j < |defs| && j != i && !defs[j].proxy ::
                Current(j) == old(Current(j))
    {
      TableEntry(defs, lists.Length, i);
      if defs[i].typ.List? {
        lists[vals[i]] := v.idx;
      } else if defs[i].proxy {
        owner := owner[defs[i].arg := v.u];
      } else {
        vals[i] := v.u;
      }
    }

    /** The owner of a setting that lives here reads it. */
    method Tell(i: nat)
      requires Shape() && i < |defs|
      modifies this`told
      ensures told == if !defs[i].proxy && defs[i].notifies then old(told)[i := Current(i)] else old(told)
    {
      if !defs[i].proxy && defs[i].notifies {
        told := told[i := Current(i)];
      }
    }

    method Notify(i: nat)
      requires Stored() && i < |defs| && ToldBut(i)
      modifies this`told
      ensures Valid()
    {
      Tell(i);
    }

    /** A refused table changes nothing; an accepted one starts with every
        setting that lives here at its default. */
    method Init(ds: seq<Def>, v: array<U32>, l: array<seq<U8>>) returns (r: Option<Errno>)
      requires |ds| <= v.Length
      modifies this, v, l
      ensures r == if ValidTable(ds, l.Length) then None else Some(EINVAL)
      ensures r.Some? ==> unchanged(this) && unchanged(v) && unchanged(l)
      ensures r.None? ==> Valid() && defs == ds && vals == v && lists == l && rev == 0 && dirty == {}
      ensures r.None? ==> values == Defaults(ds) && owner == old(owner)
    {
      var ok := Acceptable(ds, l.Length);
      if !ok {
        return Some(EINVAL);
      }
      Take(ds, v, l);
      return None;
    }

    method Take(ds: seq<Def>, v: array<U32>, l: array<seq<U8>>)
      requires |ds| <= v.Length && ValidTable(ds, l.Length)
      modifies this, v, l
      ensures Valid() && defs == ds && vals == v && lists == l && rev == 0 && dirty == {}
      ensures values == Defaults(ds) && owner == old(owner)
    {
      Adopt(ds, v, l);
      PutDefaults();
      NotifyAll();
    }

    method Adopt(ds: seq<Def>, v: array<U32>, l: array<seq<U8>>)
      requires |ds| <= v.Length && ValidTable(ds, l.Length)
      modifies this, v
      ensures Shape() && defs == ds && vals == v && lists == l && rev == 0 && dirty == {}
      ensures owner == old(owner)
    {
      defs, vals, lists, rev, dirty := ds, v, l, 0, {};
      AssignSlots();
    }

    method AssignSlots()
      requires |defs| <= vals.Length && ValidTable(defs, lists.Length)
      modifies this`user, vals
      ensures Shape()
    {
      var slot, i := 0, 0;
      user := map[];
      while i < |defs|
        invariant 0 <= i <= |defs|
        invariant slot == ListsBefore(defs, i)
        invariant forall k | k in user :: k < slot
        invariant forall j: nat | j < i && defs[j].typ.List? ::
                    vals[j] < lists.Length && vals[j] in user && user[vals[j]] == j
      {
        if defs[i].typ.List? {
          SlotsApart(defs, i, |defs|);
          vals[i] := slot;
          user := user[slot := i];
          slot := slot + 1;
        }
        i := i + 1;
      }
    }

    method PutDefaults()
      requires Shape() && dirty == {}
      modifies this`owner, this`values, vals, lists
      ensures Stored() && values == Defaults(defs) && owner == old(owner)
    {
      values := Defaults(defs);
      DefaultsFit(defs, lists.Length);
      var i := 0;
      while i < |defs|
        invariant 0 <= i <= |defs|
        invariant Shape() && values == Defaults(defs) && owner == old(owner)
        invariant forall j: nat | j < i && !defs[j].proxy :: Current(j) == values[j]
      {
        if !defs[i].proxy {
          PutDefault(i);
        }
        i := i + 1;
      }
    }

    method PutDefault(i: nat)
      requires Shape() && i < |defs| && !defs[i].proxy
      modifies this`owner, vals, lists
      ensures Shape() && Current(i) == DefaultOf(defs[i]) && owner == old(owner)
      ensures forall j: nat | j < |defs| && j != i && !defs[j].proxy :: Current(j) == old(Current(j))
    {
      TableEntry(defs, lists.Length, i);
      DefaultIsChecked(defs[i]);
      Put(i, DefaultOf(defs[i]));
    }

    method NotifyAll()
      requires Stored()
      modifies this`told
      ensures Valid()
    {
      var i := 0;
      while i < |defs|
        invariant 0 <= i <= |defs|
        invariant forall j: nat | j < i && !defs[j].proxy && defs[j].notifies :: j in told && told[j] == values[j]
      {
        Tell(i);
        i := i + 1;
      }
    }

    method Get(i: nat) returns (v: Value)
      requires Stored()
      ensures v == if i < |defs| then Current(i) else Value(0, [])
    {
      if i >= |defs| {
        return Value(0, []);
      }
      return Current(i);
    }

    /** The new value is in place. */
    method Change(i: nat, v: Value)
      requires Valid() && i < |defs| && Checked(defs[i], v) == Ok(v)
      modifies this`owner, this`values, vals, lists
      ensures Stored() && ToldBut(i)
      ensures values == if defs[i].proxy then old(values) else old(values)[i := v]
      ensures owner == if defs[i].proxy then old(owner)[defs[i].arg := v.u] else old(owner)
    {
      if defs[i].proxy {
        Put(i, v);
      } else {
        FitsStill(defs, values, i, v);
        Put(i, v);
        values := values[i := v];
      }
    }

    method Set(i: nat, v: Value) returns (r: Option<Errno>)
      requires Valid()
      modifies this, vals, lists
      ensures Valid() && defs == old(defs) && vals == old(vals) && lists == old(lists)
      ensures r == SetRc(defs, i, v)
      ensures r.Some? ==> unchanged(this) && unchanged(vals) && unchanged(lists)
      ensures r.None? ==> rev == (old(rev) + 1) % 0x1_0000_0000
      ensures r.None? ==> dirty == old(dirty) + if defs[i].proxy then {} else {i}
      ensures r.None? ==> values == if defs[i].proxy then old(values) else old(values)[i := Checked(defs[i], v).value]
      ensures r.None? ==> owner == if defs[i].proxy then old(owner)[defs[i].arg := Checked(defs[i], v).value.u]
                                   else old(owner)
    {
      if i >= |defs| {
        return Some(ENOENT);
      }
      if defs[i].readOnly {
        return Some(EACCES);
      }
      var c := Check(defs[i], v);
      if c.Err? {
        return Some(c.error);
      }
      CheckIsIdempotent(defs[i], v);
      Apply(i, c.value);
      return None;
    }

    /** The steps of a set, in their order. */
    method Apply(i: nat, v: Value)
      requires Valid() && i < |defs| && Checked(defs[i], v) == Ok(v)
      modifies this, vals, lists
      ensures Valid() && defs == old(defs) && vals == old(vals) && lists == old(lists)
      ensures rev == (old(rev) + 1) % 0x1_0000_0000
      ensures dirty == old(dirty) + if defs[i].proxy then {} else {i}
      ensures values == if defs[i].proxy then old(values) else old(values)[i := v]
      ensures owner == if defs[i].proxy then old(owner)[defs[i].arg := v.u] else old(owner)
    {
      Change(i, v);
      Publish(i);
      Notify(i);
    }

    /** The change is counted, and the store finds it. */
    method Publish(i: nat)
      requires Stored() && i < |defs|
      modifies this`rev, this`dirty
      ensures Stored()
      ensures rev == (old(rev) + 1) % 0x1_0000_0000
      ensures dirty == old(dirty) + if defs[i].proxy then {} else {i}
    {
      rev := (rev + 1) % 0x1_0000_0000;
      if !defs[i].proxy {
        dirty := dirty + {i};
      }
    }

    /** Never refused for its value. */
    method Reset(i: nat) returns (r: Option<Errno>)
      requires Valid()
      modifies this, vals, lists
      ensures Valid() && defs == old(defs) && vals == old(vals) && lists == old(lists)
      ensures r == if i >= |defs| then Some(ENOENT) else if defs[i].readOnly then Some(EACCES) else None
      ensures r.Some? ==> unchanged(this) && unchanged(vals) && unchanged(lists)
      ensures r.None? ==> rev == (old(rev) + 1) % 0x1_0000_0000
      ensures r.None? ==> dirty == old(dirty) + if defs[i].proxy then {} else {i}
      ensures r.None? ==> values == if defs[i].proxy then old(values) else old(values)[i := DefaultOf(defs[i])]
      ensures r.None? ==> owner == if defs[i].proxy then old(owner)[defs[i].arg := DefaultOf(defs[i]).u] else old(owner)
    {
      if i >= |defs| {
        return Some(ENOENT);
      }
      TableEntry(defs, lists.Length, i);
      DefaultIsChecked(defs[i]);
      r := Set(i, DefaultOf(defs[i]));
    }

    /** The stored value at boot: neither the change counter nor the dirty mask
        moves. */
    method Load(i: nat, v: Value) returns (r: Option<Errno>)
      requires Valid()
      modifies this`owner, this`told, this`values, vals, lists
      ensures Valid() && owner == old(owner)
      ensures r == LoadRc(defs, i, v)
      ensures values == if r.None? then old(values)[i := Checked(defs[i], v).value] else old(values)
    {
      if i >= |defs| {
        return Some(ENOENT);
      }
      if defs[i].readOnly || defs[i].proxy {
        return Some(EACCES);
      }
      var c := Check(defs[i], v);
      if c.Err? {
        return Some(c.error);
      }
      CheckIsIdempotent(defs[i], v);
      Change(i, c.value);
      Notify(i);
      return None;
    }

    method IsDefault(i: nat) returns (b: bool)
      requires Stored()
      ensures b <==> i < |defs| && Current(i) == DefaultOf(defs[i])
    {
      if i >= |defs| {
        return false;
      }
      var cur, dv := Current(i), DefaultOf(defs[i]);
      return if defs[i].typ.List? then cur.idx == dv.idx else cur.u == dv.u;
    }

    /** The next name index on Fn+Enter, always one of the setting's names. */
    method CycleNext(i: nat, cur: U8) returns (r: Result<nat, Errno>)
      requires Valid()
      ensures r == if i >= |defs| || !defs[i].typ.List? then Err(ENOENT)
                   else Ok(After(values[i].idx, NameCount(defs[i]), cur))
      ensures r.Ok? ==> r.value < NameCount(defs[i])
    {
      if i >= |defs| || !defs[i].typ.List? {
        return Err(ENOENT);
      }
      TableEntry(defs, lists.Length, i);
      assert Fits(defs, values, i);
      var n, v := NameCount(defs[i]), Current(i);
      var next := NextInList(v.idx, n, cur);
      return Ok(next);
    }

    method TakeDirty() returns (mask: set<nat>)
      requires Stored()
      modifies this`dirty
      ensures Stored() && mask == old(dirty) && dirty == {}
    {
      mask, dirty := dirty, {};
    }

    method MarkDirty(mask: set<nat>)
      requires Stored() && forall i | i in mask :: i < |defs| && !defs[i].proxy
      modifies this`dirty
      ensures Stored() && dirty == old(dirty) + mask
    {
      dirty := dirty + mask;
    }

    method NoteChange()
      requires Stored()
      modifies this`rev
      ensures Stored() && rev == (old(rev) + 1) % 0x1_0000_0000
    {
      rev := (rev + 1) % 0x1_0000_0000;
    }

    /** Any number of anything: what lives in the registry always passes its own
        checks, and its owner knows it. */
    method AnyRun(steps: nat)
      requires Valid()
      modifies this, vals, lists
      ensures Valid()
      ensures forall i: nat | i < |defs| && !defs[i].proxy ::
                && Checked(defs[i], Current(i)) == Ok(Current(i))
                && (defs[i].notifies ==> i in told && told[i] == Current(i))
    {
      for k := 0 to steps
        invariant Valid()
        invariant (vals == old(vals) || fresh(vals)) && (lists == old(lists) || fresh(lists))
      {
        AnyStep();
      }
      forall i: nat | i < |defs| && !defs[i].proxy
        ensures Checked(defs[i], Current(i)) == Ok(Current(i))
      {
        assert Fits(defs, values, i);
      }
    }

    method AnyStep()
      requires Valid()
      modifies this, vals, lists
      ensures Valid()
      ensures (vals == old(vals) || fresh(vals)) && (lists == old(lists) || fresh(lists))
    {
      var what: nat, i: nat, v: Value :| true;
      match what {
        case 0 => var _ := Set(i, v);
        case 1 => var _ := Reset(i);
        case 2 => var _ := Load(i, v);
        case 3 => var _ := TakeDirty();
        case 4 => NoteChange();
        case _ => AnyInit();
      }
    }

    method AnyInit()
      requires Valid()
      modifies this
      ensures Valid()
      ensures (vals == old(vals) || fresh(vals)) && (lists == old(lists) || fresh(lists))
    {
      var ds: seq<Def>, slots: nat :| true;
      var v, l := new U32[|ds|], new seq<U8>[slots];
      var r := Init(ds, v, l);
    }
  }
}
