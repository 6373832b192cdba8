/** The paged settings protocol: the keyboard's pages, and the client's loops
    that put them together. */
module Paging {
  import opened Wrappers
  import opened Bytes
  import opened Registry
  import opened Replies
  import Cbor

  const BUDGET: nat := 360

  datatype Rc = Invalid | Unknown | TooLarge

  // ---------------------------------------------------------------------
  // The estimates
  // ---------------------------------------------------------------------

  function NamesSize(names: seq<Bytes>): nat {
    if names == [] then 2 else NamesSize(names[..|names| - 1]) + 2 + |names[|names| - 1]|
  }

  function EntrySize(d: Def): nat {
    2 + (2 + |d.key|) + 2 + 2 +
    if d.typ.Uint? then 10 else if d.typ.Enum? || d.typ.List? then NamesSize(Known(d)) + 1 else 2
  }

  function ValueSize(d: Def, v: Value): nat
    requires Checked(d, v) == Ok(v)
  {
    2 + |d.key| +
    match d.typ
    case Enum => 2 + |d.names[v.u]|
    case List => NamesSize(NamesOf(d, v.idx))
    case _ => 5
  }

  /** The bytes by which the head of a text outgrows the two that are estimated. */
  function Over(t: Bytes): nat {
    if |t| <= 0xFF then 0 else if |t| <= 0xFFFF then 1 else 3
  }

  function AllOver(names: seq<Bytes>): nat {
    if names == [] then 0 else AllOver(names[..|names| - 1]) + Over(names[|names| - 1])
  }

  /** Texts whose length fits one byte. */
  predicate ShortTexts(d: Def) {
    |d.key| <= KEY_MAX && forall n | n in d.names :: |n| <= 0xFF
  }

  lemma TextEstimate(t: Bytes)
    ensures |TextBytes(t)| <= 2 + |t| + Over(t)
  {
  }

  lemma {:induction false} TextsEstimate(names: seq<Bytes>)
    ensures |TextsBytes(names)| + 2 <= NamesSize(names) + AllOver(names)
  {
    if names != [] {
      TextsEstimate(names[..|names| - 1]);
      TextEstimate(names[|names| - 1]);
    }
  }

  lemma {:induction false} NothingOver(names: seq<Bytes>)
    requires forall n | n in names :: |n| <= 0xFF
    ensures AllOver(names) == 0
  {
    if names != [] {
      assert names[|names| - 1] in names;
      assert forall n | n in names[..|names| - 1] :: n in names;
      NothingOver(names[..|names| - 1]);
    }
  }

  lemma ListEstimate(n: nat, names: seq<Bytes>, open: bool)
    requires n <= 0xFF
    ensures |ListBytes(n, TextsBytes(names), open)| <= NamesSize(names) + AllOver(names)
  {
    TextsEstimate(names);
  }

  /** The estimates bound what is encoded, but for the longer heads of texts of
      more than 255 bytes. */
  lemma EntryEstimate(d: Def, open: bool)
    ensures |EntryBytes(d, open)| <= EntrySize(d) + Over(d.key) + AllOver(Known(d))
    ensures ShortTexts(d) ==> |EntryBytes(d, open)| <= EntrySize(d)
  {
    ListEstimate(NameCount(d), Known(d), open);
    TextEstimate(d.key);
    if ShortTexts(d) {
      assert forall n | n in Known(d) :: n in d.names;
      NothingOver(Known(d));
    }
  }

  /** Texts with a head of two bytes. */
  predicate Long(t: Bytes) {
    24 <= |t| <= 0xFF
  }

  predicate AllLong(names: seq<Bytes>) {
    forall i: nat | i < |names| :: Long(names[i])
  }

  lemma {:induction false} LongTexts(names: seq<Bytes>)
    requires AllLong(names)
    ensures NamesSize(names) == |TextsBytes(names)| + 2
  {
    if names != [] {
      LongTexts(names[..|names| - 1]);
    }
  }

  /** They are no larger than needed: with texts and numbers that take the most
      bytes, and a break at the end of each list, an entry has one byte to
      spare, for its flags, and a value none. */
  lemma EntryIsTight(d: Def)
    requires Long(d.key) && AllLong(Known(d)) && d.min > 0xFFFF && d.max > 0xFFFF
    ensures EntrySize(d) == |EntryBytes(d, true)| + 1
  {
    LongTexts(Known(d));
  }

  lemma ValueIsTight(d: Def, v: Value)
    requires Checked(d, v) == Ok(v) && Long(d.key) && AllLong(d.names) && (d.typ.Uint? || d.typ.Color? ==> v.u > 0xFFFF)
    ensures ValueSize(d, v) == |ValueBytes(d, v, true)| + if d.typ.Bool? then 4 else 0
  {
    if d.typ.List? {
      var names := NamesOf(d, v.idx);
      forall i: nat | i < |names|
        ensures Long(names[i])
      {
        assert v.idx[i] in v.idx && names[i] == d.names[v.idx[i]];
      }
      LongTexts(names);
    }
  }

  function ValueOver(d: Def, v: Value): nat
    requires Checked(d, v) == Ok(v)
  {
    Over(d.key) +
    match d.typ
    case Enum => Over(d.names[v.u])
    case List => AllOver(NamesOf(d, v.idx))
    case _ => 0
  }

  lemma ShortNames(d: Def, idx: seq<U8>)
    requires ShortTexts(d) && InRange(idx, |d.names|)
    ensures forall n | n in NamesOf(d, idx) :: |n| <= 0xFF
  {
    forall n | n in NamesOf(d, idx)
      ensures |n| <= 0xFF
    {
      var i: nat :| i < |idx| && NamesOf(d, idx)[i] == n;
      assert idx[i] in idx && n == d.names[idx[i]];
    }
  }

  lemma ValueEstimate(d: Def, v: Value, open: bool)
    requires Checked(d, v) == Ok(v)
    ensures |ValueBytes(d, v, open)| <= ValueSize(d, v) + ValueOver(d, v)
    ensures ShortTexts(d) ==> |ValueBytes(d, v, open)| <= ValueSize(d, v)
  {
    TextEstimate(d.key);
    match d.typ {
      case List =>
        ListEstimate(|v.idx|, NamesOf(d, v.idx), open);
        if ShortTexts(d) {
          ShortNames(d, v.idx);
          NothingOver(NamesOf(d, v.idx));
        }
      case Enum =>
        TextEstimate(d.names[v.u]);
        assert d.names[v.u] in d.names;
      case _ =>
    }
  }

  // ---------------------------------------------------------------------
  // The list of settings
  // ---------------------------------------------------------------------

  function Sum(xs: seq<nat>, from: nat, until: nat): nat
    requires from <= until <= |xs|
  {
    if from == until then 0 else Sum(xs, from, until - 1) + xs[until - 1]
  }

  /** The estimates hold. */
  predicate Bound(lens: seq<nat>, sizes: seq<nat>) {
    |lens| == |sizes| && forall i: nat | i < |lens| :: lens[i] <= sizes[i]
  }

  /** Where the page from `start` ends: with one entry at least, and no more
      than the budget allows by the estimates.  `lens` is what the entries take,
      `room` what the reply buffer has for them. */
  method FillPage(sizes: seq<nat>, lens: seq<nat>, start: nat, room: nat) returns (end: nat, fits: bool)
    requires start < |sizes| == |lens|
    ensures start < end <= |sizes|
    ensures fits ==> Sum(lens, start, end) <= room
    ensures end > start + 1 ==> Sum(sizes, start, end) <= BUDGET
    ensures fits && end < |sizes| ==> Sum(sizes, start, end) + sizes[end] > BUDGET
    ensures Bound(lens, sizes) && room >= BUDGET && (forall n | n in lens :: n <= room) ==> fits
  {
    var i, used, bytes := start, 0, 0;
    while i < |sizes|
      invariant start <= i <= |sizes|
      invariant used == Sum(sizes, start, i) && bytes == Sum(lens, start, i) <= room
      invariant i > start + 1 ==> used <= BUDGET
      invariant Bound(lens, sizes) ==> bytes <= used
    {
      var s := sizes[i];
      if i > start && used + s > BUDGET {
        break;
      }
      used, bytes := used + s, bytes + lens[i];
      i := i + 1;
      if bytes > room {
        assert lens[i - 1] in lens;
        return i, false;
      }
    }
    return i, true;
  }

  function Sizes(ds: seq<Def>): (r: seq<nat>)
    ensures |r| == |ds|
  {
    seq(|ds|, i requires 0 <= i < |ds| => EntrySize(ds[i]))
  }

  function Lengths(ds: seq<Def>, open: bool): (r: seq<nat>)
    ensures |r| == |ds|
  {
    seq(|ds|, i requires 0 <= i < |ds| => |EntryBytes(ds[i], open)|)
  }

  predicate AllShort(ds: seq<Def>) {
    forall d | d in ds :: ShortTexts(d)
  }

  lemma EntriesBound(ds: seq<Def>, open: bool)
    requires AllShort(ds)
    ensures Bound(Lengths(ds, open), Sizes(ds))
  {
    forall i: nat | i < |ds|
      ensures Lengths(ds, open)[i] <= Sizes(ds)[i]
    {
      EntryEstimate(ds[i], open);
    }
  }

  lemma {:induction false} SumBound(lens: seq<nat>, sizes: seq<nat>, from: nat, until: nat)
    requires Bound(lens, sizes) && from <= until <= |lens|
    ensures Sum(lens, from, until) <= Sum(sizes, from, until)
  {
    if from < until {
      SumBound(lens, sizes, from, until - 1);
    }
  }

  /** Whether no entry on its own is too large for the reply. */
  predicate EachFits(lens: seq<nat>, room: nat) {
    room >= BUDGET && forall n | n in lens :: n <= room
  }

  /** One page: whole entries from `start` on, at least one if there is one.
      What it takes is beyond the budget only if it is a single entry, and it
      ends before an entry that would not fit. */
  ghost predicate IsPage(ds: seq<Def>, sizes: seq<nat>, lens: seq<nat>, start: nat, room: nat, r: ListReply)
    requires |sizes| == |lens| == |ds|
  {
    if start >= |ds| then r == ListReply([], None)
    else
      var end := start + |r.entries|;
      && start < end <= |ds| && r.entries == ds[start..end]
      && r.next == (if end < |ds| then Some(end) else None)
      && Sum(lens, start, end) <= room
      && (Bound(lens, sizes) && end > start + 1 ==> Sum(lens, start, end) <= BUDGET)
      && (end < |ds| ==> Sum(sizes, start, end) + sizes[end] > BUDGET)
  }

  method PageOf(ds: seq<Def>, sizes: seq<nat>, lens: seq<nat>, start: nat, room: nat) returns (r: Result<ListReply, Rc>)
    requires |sizes| == |lens| == |ds|
    ensures r.Err? ==> r.error == TooLarge && !(Bound(lens, sizes) && EachFits(lens, room))
    ensures r.Ok? ==> IsPage(ds, sizes, lens, start, room, r.value)
  {
    if start >= |ds| {
      return Ok(ListReply([], None));
    }
    var end, fits := FillPage(sizes, lens, start, room);
    if !fits {
      return Err(TooLarge);
    }
    if Bound(lens, sizes) {
      SumBound(lens, sizes, start, end);
    }
    return Ok(ListReply(ds[start..end], if end < |ds| then Some(end) else None));
  }

  lemma {:induction false} InSum(xs: seq<nat>, from: nat, until: nat, i: nat)
    requires from <= i < until <= |xs|
    ensures xs[i] <= Sum(xs, from, until)
  {
    if i < until - 1 {
      InSum(xs, from, until - 1, i);
    }
  }

  lemma PageIsListable(ds: seq<Def>, open: bool, start: nat, end: nat, room: nat)
    requires room <= 0xFFFF && start <= end <= |ds| && Sum(Lengths(ds, open), start, end) <= room
    ensures AllListable(ds[start..end], open)
  {
    var page := ds[start..end];
    forall i: nat | i < |page|
      ensures |EntryBytes(page[i], open)| <= 0xFFFF
    {
      assert page[i] == ds[start + i];
      EntryFits(ds, open, start, end, start + i, room);
    }
  }

  lemma EntryFits(ds: seq<Def>, open: bool, start: nat, end: nat, i: nat, room: nat)
    requires start <= i < end <= |ds| && Sum(Lengths(ds, open), start, end) <= room
    ensures |EntryBytes(ds[i], open)| <= room
  {
    InSum(Lengths(ds, open), start, end, i);
    assert Lengths(ds, open)[i] == |EntryBytes(ds[i], open)|;
  }

  lemma MoreEntries(ds: seq<Def>, i: nat, end: nat)
    requires i <= end <= |ds|
    ensures EntryItems(ds[..i]) + EntryItems(ds[i..end]) == EntryItems(ds[..end])
  {
  }

  /** Where the list goes on, and what has come so far. */
  lemma ListGoesOn(ds: seq<Def>, open: bool, start: nat, room: nat, page: ListReply, entries: seq<Cbor.Item>)
    requires start <= |ds| && entries == EntryItems(ds[..start])
    requires IsPage(ds, Sizes(ds), Lengths(ds, open), start, room, page)
    ensures var all := entries + EntryItems(page.entries);
            if page.next.None? then all == EntryItems(ds)
            else start < page.next.value < |ds| && all == EntryItems(ds[..page.next.value])
  {
    if start < |ds| {
      MoreEntries(ds, start, start + |page.entries|);
    }
    assert ds[..|ds|] == ds;
  }

  lemma {:induction false} FlatLength(parts: seq<Bytes>, lens: seq<nat>, start: nat)
    requires start + |parts| <= |lens| && forall i: nat | i < |parts| :: |parts[i]| == lens[start + i]
    ensures |Flat(parts)| == Sum(lens, start, start + |parts|)
  {
    if parts != [] {
      FlatLength(parts[..|parts| - 1], lens, start);
    }
  }

  lemma PartLength(page: seq<Def>, i: nat, ds: seq<Def>, k: nat, open: bool)
    requires i < |page| && k < |ds| && page[i] == ds[k]
    ensures |Parts(page, open)[i]| == Lengths(ds, open)[k]
  {
  }

  /** What the entries of a page are written as takes the sum of their lengths. */
  lemma FlatIsSum(ds: seq<Def>, start: nat, page: seq<Def>, open: bool, parts: seq<Bytes>, lens: seq<nat>)
    requires |parts| == |page| && start + |parts| <= |ds| && page == ds[start..start + |parts|]
    requires parts == Parts(page, open) && lens == Lengths(ds, open)
    ensures |Flat(parts)| == Sum(lens, start, start + |parts|)
  {
    forall i: nat | i < |parts|
      ensures |parts[i]| == lens[start + i]
    {
      PartLength(page, i, ds, start + i, open);
    }
    FlatLength(parts, lens, start);
  }

  /** A page of several entries takes no more than the budget, */
  lemma ListPageFits(ds: seq<Def>, start: nat, open: bool, room: nat, r: ListReply)
    requires start < |ds| && IsPage(ds, Sizes(ds), Lengths(ds, open), start, room, r) && AllShort(ds) && |r.entries| > 1
    ensures start + |r.entries| <= |ds| && Sum(Lengths(ds, open), start, start + |r.entries|) <= 360
  {
    EntriesBound(ds, open);
  }

  /** and one that is not the last ends because by the estimates the next entry
      would pass it. */
  lemma ListPageEnds(ds: seq<Def>, start: nat, open: bool, room: nat, r: ListReply)
    requires start < |ds| && IsPage(ds, Sizes(ds), Lengths(ds, open), start, room, r)
    ensures r.entries != [] && r.entries <= ds[start..] && (r.next == None <==> r.entries == ds[start..])
    ensures r.next.Some? ==> r.next.value == start + |r.entries| < |ds| && Sum(Sizes(ds), start, r.next.value + 1) > 360
  {
    var end := start + |r.entries|;
    assert ds[start..] == ds[start..end] + ds[end..];
  }

  /** One page, as bytes. */
  method ListPage(ds: seq<Def>, start: nat, open: bool, room: nat) returns (r: Result<Bytes, Rc>, ghost page: ListReply)
    requires |ds| <= MAX && room <= 0xFFFF
    ensures r.Err? ==> r.error == TooLarge && !(AllShort(ds) && EachFits(Lengths(ds, open), room))
    ensures r.Ok? ==> IsPage(ds, Sizes(ds), Lengths(ds, open), start, room, page) && AllListable(page.entries, open)
    ensures r.Ok? ==> r.value == ListReplyBytes(page, open)
  {
    if AllShort(ds) {
      EntriesBound(ds, open);
    }
    var p := PageOf(ds, Sizes(ds), Lengths(ds, open), start, room);
    if p.Err? {
      return Err(p.error), ListReply([], None);
    }
    if start < |ds| {
      PageIsListable(ds, open, start, start + |p.value.entries|, room);
    }
    return Ok(ListReplyBytes(p.value, open)), p.value;
  }

  /** The client collects every setting, once and in order, as it reads them. */
  method FetchList(ds: seq<Def>, open: bool, room: nat) returns (r: Result<seq<Cbor.Item>, Rc>)
    requires |ds| <= MAX && room <= 0xFFFF
    ensures r.Ok? ==> r.value == EntryItems(ds)
    ensures AllShort(ds) && EachFits(Lengths(ds, open), room) ==> r.Ok?
  {
    var entries, i := [], 0;
    while true
      invariant 0 <= i <= |ds| && entries == EntryItems(ds[..i])
      invariant i == 0 || i < |ds|
      decreases |ds| - i
    {
      var reply, page := ListPage(ds, i, open, room);
      if reply.Err? {
        return Err(reply.error);
      }
      ListReplyReads(page, open);
      var reading := ReadReply(reply.value, SETTINGS);
      ListGoesOn(ds, open, i, room, page, entries);
      entries := entries + reading.value.item.items;
      if reading.value.next.None? {
        return Ok(entries);
      }
      i := reading.value.next.value;
    }
  }

  // ---------------------------------------------------------------------
  // The values
  // ---------------------------------------------------------------------

  /** The ids that come for the first time, between two positions. */
  function FirstOnes(ids: seq<U8>, from: nat, until: nat): seq<U8>
    requires from <= until <= |ids|
  {
    if from == until then []
    else FirstOnes(ids, from, until - 1) + if ids[until - 1] in ids[..until - 1] then [] else [ids[until - 1]]
  }

  lemma {:induction false} FirstOnesConcat(ids: seq<U8>, a: nat, b: nat, c: nat)
    requires a <= b <= c <= |ids|
    ensures FirstOnes(ids, a, c) == FirstOnes(ids, a, b) + FirstOnes(ids, b, c)
  {
    if b < c {
      FirstOnesConcat(ids, a, b, c - 1);
    }
  }

  /** Answering the first ones only is dropping duplicates. */
  lemma {:induction false} FirstOnesAreDedup(ids: seq<U8>, n: nat)
    requires n <= |ids|
    ensures FirstOnes(ids, 0, n) == Dedup(ids[..n])
  {
    if n > 0 {
      FirstOnesAreDedup(ids, n - 1);
      DedupNext(ids, n - 1);
      DedupKeepsAll(ids[..n - 1]);
      assert ids[n - 1] in Dedup(ids[..n - 1]) <==> ids[n - 1] in ids[..n - 1];
      assert FirstOnes(ids, 0, n - 1) == Dedup(ids[..n - 1]);
    }
  }

  /** What the chosen settings take together. */
  function SumOf(xs: seq<nat>, ids: seq<U8>): nat
    requires InRange(ids, |xs|)
  {
    if ids == [] then 0
    else
      var k := |ids| - 1;
      assert ids[k] in ids && forall x | x in ids[..k] :: x in ids;
      SumOf(xs, ids[..k]) + xs[ids[k]]
  }

  lemma SumOfMore(xs: seq<nat>, ids: seq<U8>, id: U8)
    requires InRange(ids, |xs|) && id < |xs|
    ensures InRange(ids + [id], |xs|) && SumOf(xs, ids + [id]) == SumOf(xs, ids) + xs[id]
  {
  }

  predicate Positive(xs: seq<nat>) {
    forall n | n in xs :: n > 0
  }

  method Repeated(ids: seq<U8>, pos: nat) returns (dup: bool)
    requires pos < |ids|
    ensures dup <==> ids[pos] in ids[..pos]
  {
    dup := false;
    var j := 0;
    while j < pos
      invariant 0 <= j <= pos
      invariant dup <==> ids[pos] in ids[..j]
    {
      dup := dup || ids[j] == ids[pos];
      j := j + 1;
    }
  }

  /** Where the page of values from `start` ends, and what is in it: no setting
      that stands earlier in `ids`, and the first one always. */
  method FillValues(ids: seq<U8>, sizes: seq<nat>, lens: seq<nat>, start: nat, room: nat)
    returns (end: nat, picked: seq<U8>, fits: bool)
    requires start < |ids| && |sizes| == |lens| && InRange(ids, |sizes|)
    ensures start < end <= |ids| && InRange(picked, |sizes|)
    ensures picked == FirstOnes(ids, start, end)
    ensures fits ==> SumOf(lens, picked) <= room
    ensures |picked| > 1 && Positive(sizes) && Bound(lens, sizes) ==> SumOf(lens, picked) <= BUDGET
    ensures fits && end < |ids| ==> ids[end] in ids && SumOf(sizes, picked) + sizes[ids[end]] > BUDGET
    ensures Positive(sizes) && Bound(lens, sizes) && EachFits(lens, room) ==> fits
  {
    end, picked := start, [];
    var used, bytes := 0, 0;
    while end < |ids|
      invariant start <= end <= |ids| && InRange(picked, |sizes|)
      invariant picked == FirstOnes(ids, start, end)
      invariant used == SumOf(sizes, picked) && bytes == SumOf(lens, picked) <= room
      invariant end == start ==> used == 0
      invariant Positive(sizes) ==> (used == 0 <==> picked == []) && (|picked| > 1 ==> used <= BUDGET)
      invariant Bound(lens, sizes) ==> bytes <= used
    {
      var id := ids[end];
      assert id in ids;
      var dup := Repeated(ids, end);
      if !dup {
        var s := sizes[id];
        assert s in sizes && lens[id] in lens;
        if used > 0 && used + s > BUDGET {
          break;
        }
        SumOfMore(sizes, picked, id);
        SumOfMore(lens, picked, id);
        used, bytes, picked := used + s, bytes + lens[id], picked + [id];
        if bytes > room {
          end := end + 1;
          return end, picked, false;
        }
      }
      end := end + 1;
    }
    fits := true;
  }

  // ---- The keyboard's side ----

  predicate Fit(ds: seq<Def>, vs: seq<Value>, i: nat)
    requires i < |ds| == |vs|
  {
    Checked(ds[i], vs[i]) == Ok(vs[i])
  }

  /** Every value, also the proxied ones, is one of its setting. */
  predicate Values(ds: seq<Def>, vs: seq<Value>) {
    |ds| == |vs| && forall i: nat {:trigger Fit(ds, vs, i)} | i < |ds| :: Fit(ds, vs, i)
  }

  function ValueSizes(ds: seq<Def>, vs: seq<Value>): (r: seq<nat>)
    requires Values(ds, vs)
    ensures |r| == |ds| && Positive(r)
  {
    seq(|ds|, i requires 0 <= i < |ds| => assert Fit(ds, vs, i); ValueSize(ds[i], vs[i]))
  }

  function ValueLengths(ds: seq<Def>, vs: seq<Value>, open: bool): (r: seq<nat>)
    requires Values(ds, vs)
    ensures |r| == |ds|
  {
    seq(|ds|, i requires 0 <= i < |ds| => assert Fit(ds, vs, i); |ValueBytes(ds[i], vs[i], open)|)
  }

  lemma ValuesBound(ds: seq<Def>, vs: seq<Value>, open: bool)
    requires Values(ds, vs) && AllShort(ds)
    ensures Bound(ValueLengths(ds, vs, open), ValueSizes(ds, vs))
  {
    forall i: nat | i < |ds|
      ensures ValueLengths(ds, vs, open)[i] <= ValueSizes(ds, vs)[i]
    {
      assert Fit(ds, vs, i);
      ValueEstimate(ds[i], vs[i], open);
    }
  }

  /** The settings a request names; none named: all of them. */
  function Asked(ds: seq<Def>, keys: seq<Bytes>): (r: Result<seq<U8>, Rc>)
    requires |ds| <= MAX
    ensures r.Ok? ==> InRange(r.value, |ds|)
  {
    if keys == [] then Ok(UpTo(|ds|))
    else if |keys| > MAX then Err(Invalid)
    else Found(ds, keys)
  }

  function Found(ds: seq<Def>, keys: seq<Bytes>): (r: Result<seq<U8>, Rc>)
    requires |ds| <= MAX
    ensures r.Ok? ==> InRange(r.value, |ds|)
  {
    if keys == [] then Ok([])
    else
      var r, i := Found(ds, keys[..|keys| - 1]), KeyIndex(ds, keys[|keys| - 1]);
      if r.Err? then r else if i.None? then Err(Unknown) else Ok(r.value + [i.value])
  }

  method Resolve(ds: seq<Def>, keys: seq<Bytes>) returns (r: Result<seq<U8>, Rc>)
    requires |ds| <= MAX
    ensures r == Asked(ds, keys)
  {
    if keys == [] {
      return Ok(UpTo(|ds|));
    }
    if |keys| > MAX {
      return Err(Invalid);
    }
    var ids: seq<U8>, j := [], 0;
    while j < |keys|
      invariant 0 <= j <= |keys|
      invariant Found(ds, keys[..j]) == Ok(ids)
    {
      var i := FindKey(ds, keys[j]);
      assert keys[..j + 1][..j] == keys[..j];
      if i.None? {
        FoundStops(ds, keys, j + 1);
        return Err(Unknown);
      }
      ids, j := ids + [i.value], j + 1;
    }
    assert keys[..j] == keys;
    return Ok(ids);
  }

  lemma {:induction false} FoundStops(ds: seq<Def>, keys: seq<Bytes>, j: nat)
    requires |ds| <= MAX && j <= |keys| && Found(ds, keys[..j]).Err?
    ensures Found(ds, keys) == Found(ds, keys[..j])
    decreases |keys|
  {
    if j < |keys| {
      assert keys[..|keys| - 1][..j] == keys[..j];
      FoundStops(ds, keys[..|keys| - 1], j);
    } else {
      assert keys[..j] == keys;
    }
  }

  function Answers(vs: seq<Value>, ids: seq<U8>): (r: seq<Answer>)
    requires InRange(ids, |vs|)
    ensures |r| == |ids| && forall i: nat | i < |r| :: ids[i] in ids && r[i] == Answer(ids[i], vs[ids[i]])
  {
    seq(|ids|, i requires 0 <= i < |ids| => assert ids[i] in ids; Answer(ids[i], vs[ids[i]]))
  }

  /** One page of values: what `ids` names from `start` on and not before, at
      least one position further.  What it takes is beyond the budget only if
      it is a single value, and it ends before a value that would not fit. */
  ghost predicate IsGetPage(vs: seq<Value>, ids: seq<U8>, sizes: seq<nat>, lens: seq<nat>, start: nat, room: nat, r: GetReply)
    requires |sizes| == |lens| == |vs| && InRange(ids, |vs|)
  {
    if start >= |ids| then r == GetReply([], None)
    else
      var end := if r.next.Some? then r.next.value else |ids|;
      && start < end <= |ids| && (r.next.Some? ==> end < |ids|)
      && var picked := FirstOnes(ids, start, end);
      && InRange(picked, |vs|) && r.answers == Answers(vs, picked) && SumOf(lens, picked) <= room
      && (Bound(lens, sizes) && |picked| > 1 ==> SumOf(lens, picked) <= BUDGET)
      && (end < |ids| ==> ids[end] in ids && SumOf(sizes, picked) + sizes[ids[end]] > BUDGET)
  }

  method ValuesPage(vs: seq<Value>, ids: seq<U8>, sizes: seq<nat>, lens: seq<nat>, start: nat, room: nat)
    returns (r: Result<GetReply, Rc>)
    requires |sizes| == |lens| == |vs| && InRange(ids, |vs|) && Positive(sizes)
    ensures r.Err? ==> r.error == TooLarge && !(Bound(lens, sizes) && EachFits(lens, room))
    ensures r.Ok? ==> IsGetPage(vs, ids, sizes, lens, start, room, r.value)
  {
    if start >= |ids| {
      return Ok(GetReply([], None));
    }
    var end, picked, fits := FillValues(ids, sizes, lens, start, room);
    if !fits {
      return Err(TooLarge);
    }
    return Ok(GetReply(Answers(vs, picked), if end < |ids| then Some(end) else None));
  }

  lemma {:induction false} InSumOf(xs: seq<nat>, ids: seq<U8>, i: nat)
    requires InRange(ids, |xs|) && i < |ids|
    ensures ids[i] in ids && xs[ids[i]] <= SumOf(xs, ids)
  {
    var k := |ids| - 1;
    assert ids[k] in ids && forall x | x in ids[..k] :: x in ids;
    if i < k {
      InSumOf(xs, ids[..k], i);
    }
  }

  lemma {:induction false} FewFirstOnes(ids: seq<U8>, from: nat, until: nat)
    requires from <= until <= |ids|
    ensures |FirstOnes(ids, from, until)| <= until - from
  {
    if from < until {
      FewFirstOnes(ids, from, until - 1);
    }
  }

  lemma PageIsWritable(ds: seq<Def>, vs: seq<Value>, ids: seq<U8>, start: nat, open: bool, room: nat, r: GetReply)
    requires Values(ds, vs) && room <= 0xFFFF && InRange(ids, |ds|) && |ids| <= MAX
    requires IsGetPage(vs, ids, ValueSizes(ds, vs), ValueLengths(ds, vs, open), start, room, r)
    ensures AllWritable(ds, r.answers, open) && |r.answers| <= MAX && (r.next.Some? ==> r.next.value < MAX)
  {
    if start < |ids| {
      var end := if r.next.Some? then r.next.value else |ids|;
      var picked := FirstOnes(ids, start, end);
      FewFirstOnes(ids, start, end);
      forall i: nat | i < |picked|
        ensures Writable(ds, r.answers[i], open)
      {
        InSumOf(ValueLengths(ds, vs, open), picked, i);
        assert Fit(ds, vs, picked[i]);
      }
    }
  }

  lemma {:induction false} ValuesAreSum(ds: seq<Def>, vs: seq<Value>, ids: seq<U8>, open: bool)
    requires Values(ds, vs) && InRange(ids, |ds|) && AllWritable(ds, Answers(vs, ids), open)
    ensures |ValuesBytes(ds, Answers(vs, ids), open)| == SumOf(ValueLengths(ds, vs, open), ids)
  {
    if ids != [] {
      var k := |ids| - 1;
      assert ids[k] in ids && forall x | x in ids[..k] :: x in ids;
      assert Answers(vs, ids)[..k] == Answers(vs, ids[..k]);
      ValuesAreSum(ds, vs, ids[..k], open);
      assert Fit(ds, vs, ids[k]);
    }
  }

  /** A page of several values takes no more than the budget, and one that is not
      the last ends because by the estimates the next value would pass it. */
  lemma GetPageMeans(ds: seq<Def>, vs: seq<Value>, ids: seq<U8>, start: nat, open: bool, room: nat, r: GetReply)
    requires Values(ds, vs) && InRange(ids, |ds|) && start < |ids| && AllWritable(ds, r.answers, open)
    requires IsGetPage(vs, ids, ValueSizes(ds, vs), ValueLengths(ds, vs, open), start, room, r)
    ensures |r.answers| > 1 && AllShort(ds) ==> |ValuesBytes(ds, r.answers, open)| <= 360
    ensures r.next.Some? ==>
              && start < r.next.value < |ids|
              && var picked, next := FirstOnes(ids, start, r.next.value), ids[r.next.value];
                 InRange(picked, |ds|) && next < |ds| && SumOf(ValueSizes(ds, vs), picked) + ValueSizes(ds, vs)[next] > 360
  {
    var picked := FirstOnes(ids, start, if r.next.Some? then r.next.value else |ids|);
    ValuesAreSum(ds, vs, picked, open);
    if AllShort(ds) {
      ValuesBound(ds, vs, open);
    }
  }

  lemma {:induction false} FoundLength(ds: seq<Def>, keys: seq<Bytes>)
    requires |ds| <= MAX && Found(ds, keys).Ok?
    ensures |Found(ds, keys).value| == |keys|
  {
    if keys != [] {
      FoundLength(ds, keys[..|keys| - 1]);
    }
  }

  /** One page of values, as bytes. */
  method GetPage(ds: seq<Def>, vs: seq<Value>, keys: seq<Bytes>, start: nat, open: bool, room: nat)
    returns (r: Result<Bytes, Rc>, ghost page: GetReply)
    requires |ds| <= MAX && Values(ds, vs) && room <= 0xFFFF
    ensures Asked(ds, keys).Err? ==> r == Err(Asked(ds, keys).error)
    ensures Asked(ds, keys).Ok? && r.Err? ==>
              r.error == TooLarge && !(AllShort(ds) && EachFits(ValueLengths(ds, vs, open), room))
    ensures r.Ok? ==> Asked(ds, keys).Ok?
    ensures r.Ok? ==>
              IsGetPage(vs, Asked(ds, keys).value, ValueSizes(ds, vs), ValueLengths(ds, vs, open), start, room, page)
    ensures r.Ok? ==> AllWritable(ds, page.answers, open) && |page.answers| <= MAX && (page.next.Some? ==> page.next.value < MAX)
    ensures r.Ok? ==> r.value == GetReplyBytes(ds, page, open)
  {
    page := GetReply([], None);
    var asked := Resolve(ds, keys);
    if asked.Err? {
      return Err(asked.error), page;
    }
    if AllShort(ds) {
      ValuesBound(ds, vs, open);
    }
    var p := ValuesPage(vs, asked.value, ValueSizes(ds, vs), ValueLengths(ds, vs, open), start, room);
    if p.Err? {
      return Err(p.error), page;
    }
    if keys != [] {
      FoundLength(ds, keys);
    }
    PageIsWritable(ds, vs, asked.value, start, open, room, p.value);
    return Ok(GetReplyBytes(ds, p.value, open)), p.value;
  }

  // ---- The client's side ----

  /** The keyboard, whose values may change between two requests. */
  class Device {
    const ds: seq<Def>
    var vals: seq<Value>
    ghost var past: seq<seq<Value>>

    ghost predicate Valid()
      reads this
    {
      |ds| <= MAX && Values(ds, vals) && past != [] && past[|past| - 1] == vals
    }

    constructor (ds: seq<Def>, vals: seq<Value>)
      requires |ds| <= MAX && Values(ds, vals)
      ensures Valid() && this.ds == ds && this.vals == vals && past == [vals]
    {
      this.ds, this.vals, past := ds, vals, [vals];
    }

    method Elapse()
      requires Valid()
      modifies this
      ensures Valid() && past == old(past) + [vals]
    {
      var vs: seq<Value> :| Values(ds, vs);
      vals, past := vs, past + [vs];
    }
  }

  /** The keyboard had this value at some time from `since` on. */
  ghost predicate Had(past: seq<seq<Value>>, since: nat, a: Answer) {
    exists t: nat :: since <= t < |past| && a.id < |past[t]| && past[t][a.id] == a.value
  }

  function Ids(answers: seq<Answer>): (r: seq<U8>)
    ensures |r| == |answers| && forall i: nat | i < |r| :: r[i] == answers[i].id
  {
    seq(|answers|, i requires 0 <= i < |answers| => answers[i].id)
  }

  ghost predicate AllHad(past: seq<seq<Value>>, since: nat, answers: seq<Answer>) {
    forall i: nat | i < |answers| :: Had(past, since, answers[i])
  }

  lemma StillHad(past: seq<seq<Value>>, past': seq<seq<Value>>, since: nat, a: seq<Answer>, b: seq<Answer>)
    requires past <= past' && AllHad(past, since, a) && AllHad(past', |past|, b) && since <= |past|
    ensures AllHad(past', since, a + b)
  {
  }

  /** Values as they were then leave room for each of them in a reply. */
  ghost predicate RoomFor(ds: seq<Def>, vs: seq<Value>, open: bool, room: nat) {
    Values(ds, vs) ==> EachFits(ValueLengths(ds, vs, open), room)
  }

  /** There was always room from `since` on. */
  ghost predicate AlwaysRoom(ds: seq<Def>, past: seq<seq<Value>>, since: nat, open: bool, room: nat) {
    forall t: nat | since <= t < |past| :: RoomFor(ds, past[t], open, room)
  }

  /** One request, some time after the one before, and what the client reads in
      the reply. */
  method Request(dev: Device, keys: seq<Bytes>, start: nat, open: bool, room: nat)
    returns (r: Result<Reading, Rc>, ghost page: GetReply)
    requires dev.Valid() && room <= 0xFFFF
    modifies dev
    ensures dev.Valid() && old(dev.past) <= dev.past
    ensures Asked(dev.ds, keys).Err? ==> r == Err(Asked(dev.ds, keys).error)
    ensures Asked(dev.ds, keys).Ok? && r.Err? ==>
              r.error == TooLarge && !(AllShort(dev.ds) && AlwaysRoom(dev.ds, dev.past, |old(dev.past)|, open, room))
    ensures r.Ok? ==> Asked(dev.ds, keys).Ok? && IsNext(dev.ds, Asked(dev.ds, keys).value, start, page)
    ensures r.Ok? ==> r.value == Reading(Cbor.Dict(Gathered(dev.ds, page.answers)), page.next)
    ensures r.Ok? ==> AllHad(dev.past, |old(dev.past)|, page.answers)
  {
    dev.Elapse();
    var reply;
    reply, page := GetPage(dev.ds, dev.vals, keys, start, open, room);
    if reply.Err? {
      if Asked(dev.ds, keys).Ok? {
        assert RoomFor(dev.ds, dev.past[|old(dev.past)|], open, room) ==> !AllShort(dev.ds);
      }
      return Err(reply.error), page;
    }
    GetReplyReads(dev.ds, page, open);
    var reading := ReadReply(reply.value, VALUES);
    if start < |Asked(dev.ds, keys).value| {
      ghost var ids := Asked(dev.ds, keys).value;
      ghost var picked := FirstOnes(ids, start, if page.next.Some? then page.next.value else |ids|);
      AnswersAre(dev.vals, picked, dev.past, |old(dev.past)|);
    }
    return Ok(reading.value), page;
  }

  /** The page answers what `ids` names for the first time from `start` on, up to
      where it says to go on. */
  ghost predicate IsNext(ds: seq<Def>, ids: seq<U8>, start: nat, page: GetReply) {
    if start >= |ids| then page == GetReply([], None)
    else
      var end := if page.next.Some? then page.next.value else |ids|;
      && start < end <= |ids| && (page.next.Some? ==> end < |ids|)
      && Ids(page.answers) == FirstOnes(ids, start, end) && InRange(Ids(page.answers), |ds|)
  }

  lemma AnswersAre(vs: seq<Value>, ids: seq<U8>, past: seq<seq<Value>>, since: nat)
    requires InRange(ids, |vs|) && since < |past| && past[|past| - 1] == vs
    ensures Ids(Answers(vs, ids)) == ids && AllHad(past, since, Answers(vs, ids))
  {
  }

  /** What the client has before it asks from `start` on. */
  ghost predicate Collected(ds: seq<Def>, keys: seq<Bytes>, start: nat, answers: seq<Answer>, values: map<Bytes, Cbor.Item>)
    requires |ds| <= MAX
  {
    && InRange(Ids(answers), |ds|) && values == Gathered(ds, answers)
    && (if Asked(ds, keys).Ok?
        then (start == 0 || start < |Asked(ds, keys).value|) && Ids(answers) == FirstOnes(Asked(ds, keys).value, 0, start)
        else start == 0 && answers == [])
  }

  lemma CollectMore(ds: seq<Def>, keys: seq<Bytes>, start: nat, a: seq<Answer>, end: nat, b: seq<Answer>)
    requires |ds| <= MAX && Asked(ds, keys).Ok? && start <= end <= |Asked(ds, keys).value|
    requires Ids(a) == FirstOnes(Asked(ds, keys).value, 0, start)
    requires Ids(b) == FirstOnes(Asked(ds, keys).value, start, end)
    ensures Ids(a + b) == FirstOnes(Asked(ds, keys).value, 0, end)
    ensures end == |Asked(ds, keys).value| ==> Ids(a + b) == Dedup(Asked(ds, keys).value)
  {
    var ids := Asked(ds, keys).value;
    FirstOnesConcat(ids, 0, start, end);
    assert Ids(a + b) == Ids(a) + Ids(b);
    if end == |ids| {
      FirstOnesAreDedup(ids, end);
      assert ids[..end] == ids;
    }
  }

  /** The client collects every setting asked for, each once and in the order
      asked, and reads of each a value it had meanwhile; it fails only for a bad
      request, or when a value did not fit a reply. */
  method FetchValues(dev: Device, keys: seq<Bytes>, open: bool, room: nat)
    returns (r: Result<map<Bytes, Cbor.Item>, Rc>, ghost answers: seq<Answer>)
    requires dev.Valid() && room <= 0xFFFF
    modifies dev
    ensures dev.Valid() && old(dev.past) <= dev.past
    ensures Asked(dev.ds, keys).Err? ==> r == Err(Asked(dev.ds, keys).error)
    ensures Asked(dev.ds, keys).Ok? && r.Err? ==>
              r.error == TooLarge && !(AllShort(dev.ds) && AlwaysRoom(dev.ds, dev.past, |old(dev.past)|, open, room))
    ensures r.Ok? ==>
              && Asked(dev.ds, keys).Ok?
              && Ids(answers) == Dedup(Asked(dev.ds, keys).value)
              && InRange(Ids(answers), |dev.ds|) && r.value == Gathered(dev.ds, answers)
              && AllHad(dev.past, |old(dev.past)|, answers)
  {
    var values: map<Bytes, Cbor.Item> := map[];
    var start: nat := 0;
    answers := [];
    while true
      invariant dev.Valid() && old(dev.past) <= dev.past
      invariant Collected(dev.ds, keys, start, answers, values)
      invariant AllHad(dev.past, |old(dev.past)|, answers)
      decreases if Asked(dev.ds, keys).Ok? then |Asked(dev.ds, keys).value| - start else 0
    {
      ghost var before := dev.past;
      ghost var page;
      var reading;
      reading, page := Request(dev, keys, start, open, room);
      if reading.Err? {
        return Err(reading.error), answers;
      }
      StillHad(before, dev.past, |old(dev.past)|, answers, page.answers);
      Adds(dev.ds, keys, start, values, answers, page);
      values, answers := values + reading.value.item.entries, answers + page.answers;
      if reading.value.next.None? {
        return Ok(values), answers;
      }
      start := reading.value.next.value;
    }
  }

  /** What a page adds to what the client has. */
  lemma Adds(ds: seq<Def>, keys: seq<Bytes>, start: nat, values: map<Bytes, Cbor.Item>, answers: seq<Answer>, page: GetReply)
    requires |ds| <= MAX && Collected(ds, keys, start, answers, values) && Asked(ds, keys).Ok?
    requires IsNext(ds, Asked(ds, keys).value, start, page)
    ensures var all := answers + page.answers;
            && InRange(Ids(all), |ds|) && values + Gathered(ds, page.answers) == Gathered(ds, all)
            && (page.next.Some? ==>
                  start < page.next.value && Collected(ds, keys, page.next.value, all, values + Gathered(ds, page.answers)))
            && (page.next.None? ==> Ids(all) == Dedup(Asked(ds, keys).value))
  {
    var ids := Asked(ds, keys).value;
    var end := if page.next.Some? then page.next.value else |ids|;
    PageAnswers(ds, ids, start, page, end);
    CollectMore(ds, keys, start, answers, end, page.answers);
    BothInRange(answers, page.answers, |ds|);
    GatheredConcat(ds, answers, page.answers);
  }

  lemma PageAnswers(ds: seq<Def>, ids: seq<U8>, start: nat, page: GetReply, end: nat)
    requires IsNext(ds, ids, start, page) && start <= |ids| && end == if page.next.Some? then page.next.value else |ids|
    ensures start <= end <= |ids| && Ids(page.answers) == FirstOnes(ids, start, end) && InRange(Ids(page.answers), |ds|)
    ensures page.next.Some? ==> start < end < |ids|
  {
  }

  lemma BothInRange(a: seq<Answer>, b: seq<Answer>, n: nat)
    requires InRange(Ids(a), n) && InRange(Ids(b), n)
    ensures InRange(Ids(a + b), n)
  {
    assert Ids(a + b) == Ids(a) + Ids(b);
  }

  // ---- What the client ends up with ----

  lemma InRangePrefix(answers: seq<Answer>, n: nat)
    requires answers != [] && InRange(Ids(answers), n)
    ensures InRange(Ids(answers[..|answers| - 1]), n) && answers[|answers| - 1].id < n
  {
    var k := |answers| - 1;
    assert Ids(answers[..k]) == Ids(answers)[..k];
    assert forall x | x in Ids(answers[..k]) :: x in Ids(answers);
    assert Ids(answers)[k] in Ids(answers);
  }

  /** The keys are those of the answers. */
  lemma {:induction false} GatheredKeys(ds: seq<Def>, answers: seq<Answer>, k: Bytes)
    requires InRange(Ids(answers), |ds|)
    ensures k in Gathered(ds, answers) <==> exists x :: x in Ids(answers) && x < |ds| && ds[x].key == k
  {
    if answers != [] {
      var n := |answers| - 1;
      InRangePrefix(answers, |ds|);
      GatheredKeys(ds, answers[..n], k);
      assert Ids(answers) == Ids(answers[..n]) + [answers[n].id];
    }
  }

  /** Every answer is found under its key. */
  lemma {:induction false} GatheredValue(ds: seq<Def>, slots: nat, answers: seq<Answer>, i: nat)
    requires ValidTable(ds, slots) && InRange(Ids(answers), |ds|) && Distinct(Ids(answers)) && i < |answers|
    ensures answers[i].id < |ds| && ds[answers[i].id].key in Gathered(ds, answers)
    ensures Gathered(ds, answers)[ds[answers[i].id].key] == ItemOf(ds[answers[i].id], answers[i].value)
  {
    var n := |answers| - 1;
    InRangePrefix(answers, |ds|);
    if i < n {
      assert Ids(answers[..n]) == Ids(answers)[..n];
      GatheredValue(ds, slots, answers[..n], i);
      assert Ids(answers)[i] != Ids(answers)[n];
      TableEntry(ds, slots, answers[i].id);
      TableEntry(ds, slots, answers[n].id);
    }
  }

  lemma {:induction false} FoundMeaning(ds: seq<Def>, keys: seq<Bytes>)
    requires |ds| <= MAX && Found(ds, keys).Ok?
    ensures forall k | k in keys :: KeyIndex(ds, k).Some? && KeyIndex(ds, k).value in Found(ds, keys).value
    ensures forall x | x in Found(ds, keys).value :: x < |ds| && ds[x].key in keys
  {
    if keys != [] {
      var most, last := keys[..|keys| - 1], keys[|keys| - 1];
      FoundMeaning(ds, most);
      assert keys == most + [last];
    }
  }

  lemma {:induction false} FoundWhen(ds: seq<Def>, keys: seq<Bytes>)
    requires |ds| <= MAX
    ensures Found(ds, keys).Ok? <==> forall k | k in keys :: KeyIndex(ds, k).Some?
    ensures Found(ds, keys).Err? ==> Found(ds, keys).error == Unknown
  {
    if keys != [] {
      var most, last := keys[..|keys| - 1], keys[|keys| - 1];
      FoundWhen(ds, most);
      assert keys == most + [last];
      assert last in keys && forall k | k in most :: k in keys;
    }
  }

  /** A request is good when it names at most 32 keys, all of them known. */
  lemma AskedWhen(ds: seq<Def>, keys: seq<Bytes>)
    requires |ds| <= MAX
    ensures Asked(ds, keys).Ok? <==> |keys| <= 32 && forall k | k in keys :: KeyIndex(ds, k).Some?
    ensures Asked(ds, keys) == Err(Invalid) <==> |keys| > 32
  {
    FoundWhen(ds, keys);
  }

  /** The keys of the result are exactly the keys asked for, or all keys. */
  lemma FetchedKeys(ds: seq<Def>, slots: nat, keys: seq<Bytes>, answers: seq<Answer>, k: Bytes)
    requires ValidTable(ds, slots) && Asked(ds, keys).Ok?
    requires Ids(answers) == Dedup(Asked(ds, keys).value) && InRange(Ids(answers), |ds|)
    ensures k in Gathered(ds, answers) <==> if keys == [] then KeyIndex(ds, k).Some? else k in keys
  {
    var ids := Asked(ds, keys).value;
    DedupKeepsAll(ids);
    GatheredKeys(ds, answers, k);
    var i := KeyIndex(ds, k);
    if keys == [] {
      if i.Some? {
        assert ids[i.value] in ids;
      }
    } else {
      FoundMeaning(ds, keys);
    }
  }
}
