/** The replies to the list and get commands as bytes, and what a client reads
    in them. */
module Replies {
  import opened Wrappers
  import opened Bytes
  import opened Registry
  import opened Cbor

  // ---------------------------------------------------------------------
  // What the keyboard writes
  // ---------------------------------------------------------------------

  function TextBytes(s: Bytes): Bytes {
    (if |s| < U32_END then Head(3, |s|) else []) + s
  }

  /** The keyboard's lists have a break at their end, or a length in front. */
  function ListBytes(n: nat, items: Bytes, open: bool): Bytes
    requires n < U32_END
  {
    if open then [0x9F] + items + [BREAK] else Head(4, n) + items
  }

  /** And so have its maps. */
  function MapBytes(n: nat, pairs: Bytes, open: bool): Bytes
    requires n < U32_END
  {
    if open then [0xBF] + (pairs + [BREAK]) else Head(5, n) + pairs
  }

  function TextsBytes(names: seq<Bytes>): Bytes {
    if names == [] then [] else TextsBytes(names[..|names| - 1]) + TextBytes(names[|names| - 1])
  }

  const NIL: byte := 0xF6

  function TypeChar(t: Type): byte {
    match t
    case Bool => 98
    case Uint => 117
    case Enum => 101
    case Color => 99
    case List => 108
    case Other => 63
  }

  /** An entry of the list reply: key, type, two parameters, flags. */
  function EntryBytes(d: Def, open: bool): Bytes {
    var mid :=
      if d.typ.Uint? then Head(0, d.min) + Head(0, d.max)
      else if d.typ.Enum? || d.typ.List? then ListBytes(NameCount(d), TextsBytes(Known(d)), open) + [NIL]
      else [NIL, NIL];
    ListBytes(5, TextBytes(d.key) + TextBytes([TypeChar(d.typ)]) + mid + Head(0, if d.readOnly then 1 else 0), open)
  }

  function NamesOf(d: Def, idx: seq<U8>): seq<Bytes>
    requires InRange(idx, |d.names|)
  {
    seq(|idx|, i requires 0 <= i < |idx| => assert idx[i] in idx; d.names[idx[i]])
  }

  /** A key and its value in the get reply. */
  function ValueBytes(d: Def, v: Value, open: bool): Bytes
    requires Checked(d, v) == Ok(v)
  {
    TextBytes(d.key) +
    match d.typ
    case Bool => [if v.u != 0 then 0xF5 else 0xF4]
    case Enum => TextBytes(d.names[v.u])
    case List => ListBytes(|v.idx|, TextsBytes(NamesOf(d, v.idx)), open)
    case Uint | Color => Head(0, v.u)
    case Other => []
  }

  // ---------------------------------------------------------------------
  // What a client reads
  // ---------------------------------------------------------------------

  function TextItems(names: seq<Bytes>): (r: seq<Item>)
    ensures |r| == |names|
  {
    seq(|names|, i requires 0 <= i < |names| => Text(names[i]))
  }

  /** The value of a setting: on or off, a number, a name, or names in order. */
  function ItemOf(d: Def, v: Value): Item {
    match d.typ
    case Bool => Item.Bool(v.u == 1)
    case Uint | Color => Int(v.u)
    case Enum => if v.u < |d.names| then Text(d.names[v.u]) else Null
    case List => if InRange(v.idx, |d.names|) then Item.List(TextItems(NamesOf(d, v.idx))) else Null
    case Other => Null
  }

  /** A setting of the list: key, type, least and greatest number or the names,
      and whether it can only be read. */
  function EntryItem(d: Def): Item {
    var names := Item.List(TextItems(Known(d)));
    Item.List([Text(d.key), Text([TypeChar(d.typ)]),
               if d.typ.Uint? then Int(d.min) else if d.typ.Enum? || d.typ.List? then names else Null,
               if d.typ.Uint? then Int(d.max) else Null,
               Int(if d.readOnly then 1 else 0)])
  }

  /** Texts short enough for every reader. */
  predicate Short(t: Bytes) {
    |t| <= 0xFFFF
  }

  predicate AllShort16(names: seq<Bytes>) {
    forall i: nat | i < |names| :: Short(names[i])
  }

  lemma TextIsItem(t: Bytes, open: bool)
    requires Short(t)
    ensures Encoded(Text(t), open) == Some(TextBytes(t)) && TextBytes(t) == Head(3, |t|) + t
  {
  }

  lemma {:induction false} TextsAreItems(names: seq<Bytes>, open: bool)
    requires AllShort16(names)
    ensures EncodedAll(TextItems(names), open) == Some(TextsBytes(names))
  {
    if names != [] {
      var k := |names| - 1;
      TextsAreItems(names[..k], open);
      TextIsItem(names[k], open);
      EncodedAllAppend(TextItems(names[..k]), Text(names[k]), open);
      assert TextItems(names) == TextItems(names[..k]) + [Text(names[k])];
    }
  }

  lemma NamesAreItem(names: seq<Bytes>, open: bool)
    requires AllShort16(names) && |names| <= 0xFF
    ensures Encoded(Item.List(TextItems(names)), open) == Some(ListBytes(|names|, TextsBytes(names), open))
  {
    TextsAreItems(names, open);
  }

  lemma {:induction false} TextsAreLong(names: seq<Bytes>)
    requires |TextsBytes(names)| <= 0xFFFF
    ensures AllShort16(names)
  {
    if names != [] {
      TextsAreLong(names[..|names| - 1]);
    }
  }

  /** What is written for a value that fits a buffer is its key and its item. */
  lemma ValueIsItem(d: Def, v: Value, open: bool)
    requires Checked(d, v) == Ok(v) && |ValueBytes(d, v, open)| <= 0xFFFF
    ensures Short(d.key) && Encoded(ItemOf(d, v), open).Some?
    ensures ValueBytes(d, v, open) == Head(3, |d.key|) + d.key + Encoded(ItemOf(d, v), open).value
  {
    TextIsItem(d.key, open);
    match d.typ {
      case Enum =>
        TextIsItem(d.names[v.u], open);
      case List =>
        var names := NamesOf(d, v.idx);
        TextsAreLong(names);
        CheckedIsValid(d, v);
        NamesAreItem(names, open);
      case _ =>
    }
  }

  /** The item says what the value means. */
  lemma ItemIs(d: Def, v: Value)
    requires Checked(d, v) == Ok(v)
    ensures match d.typ
            case Bool => ItemOf(d, v) == Item.Bool(v.u != 0)
            case Uint | Color => ItemOf(d, v) == Int(v.u)
            case Enum => ItemOf(d, v) == Text(d.names[v.u])
            case List =>
              && ItemOf(d, v).List? && |ItemOf(d, v).items| == |v.idx|
              && forall i: nat | i < |v.idx| :: v.idx[i] in v.idx && ItemOf(d, v).items[i] == Text(d.names[v.idx[i]])
            case Other => false
  {
  }

  lemma PairReadsBack(key: Bytes, i: Item, b: Bytes, open: bool, data: Bytes, off: nat)
    requires Short(key) && Encoded(i, open) == Some(b) && At(data, off, Head(3, |key|) + key + b)
    ensures var end := off + |Head(3, |key|) + key|;
            && Parse(data, off) == Parsed(Text(key), end)
            && Parse(data, end) == Parsed(i, end + |b|)
  {
    var k := Head(3, |key|) + key;
    AtSplit(data, off, k, b);
    TextRoundTrip(key, data, off);
    RoundTrip(i, open, b, data, off + |k|);
  }

  /** What is written for a value is read back wherever it stands, whatever
      follows. */
  lemma ValueReadsBack(d: Def, v: Value, open: bool, data: Bytes, off: nat)
    requires Checked(d, v) == Ok(v) && |ValueBytes(d, v, open)| <= 0xFFFF && At(data, off, ValueBytes(d, v, open))
    ensures Parse(data, off).Parsed? && Parse(data, off).item == Text(d.key)
    ensures Parse(data, Parse(data, off).end) == Parsed(ItemOf(d, v), off + |ValueBytes(d, v, open)|)
  {
    ValueIsItem(d, v, open);
    var b := Encoded(ItemOf(d, v), open).value;
    PairReadsBack(d.key, ItemOf(d, v), b, open, data, off);
    assert |ValueBytes(d, v, open)| == |Head(3, |d.key|) + d.key| + |b|;
  }

  function Flat(parts: seq<Bytes>): Bytes {
    if parts == [] then [] else Flat(parts[..|parts| - 1]) + parts[|parts| - 1]
  }

  /** The parts are what the items are written as. */
  predicate PartsAre(items: seq<Item>, parts: seq<Bytes>, open: bool) {
    |parts| == |items| && forall i: nat | i < |items| :: Encoded(items[i], open) == Some(parts[i])
  }

  lemma {:induction false} ItemsAreParts(items: seq<Item>, parts: seq<Bytes>, open: bool)
    requires PartsAre(items, parts, open)
    ensures EncodedAll(items, open) == Some(Flat(parts))
  {
    if items != [] {
      var k := |items| - 1;
      ItemsAreParts(items[..k], parts[..k], open);
      EncodedAllAppend(items[..k], items[k], open);
      assert items == items[..k] + [items[k]];
    }
  }

  lemma FlatAppend(parts: seq<Bytes>, last: Bytes)
    ensures Flat(parts + [last]) == Flat(parts) + last
  {
    assert (parts + [last])[..|parts|] == parts;
  }

  lemma FlatFive(a: Bytes, b: Bytes, c: Bytes, d: Bytes, e: Bytes)
    ensures Flat([a, b, c, d, e]) == a + b + c + d + e
  {
    FlatAppend([], a);
    FlatAppend([a], b);
    FlatAppend([a, b], c);
    FlatAppend([a, b, c], d);
    FlatAppend([a, b, c, d], e);
    assert [] + [a] == [a] && [a] + [b] == [a, b] && [a, b] + [c] == [a, b, c];
    assert [a, b, c] + [d] == [a, b, c, d] && [a, b, c, d] + [e] == [a, b, c, d, e];
    assert [] + a == a;
  }

  /** The two parameters of an entry. */
  function Parameters(d: Def, open: bool): (Bytes, Bytes) {
    if d.typ.Uint? then (Head(0, d.min), Head(0, d.max))
    else if d.typ.Enum? || d.typ.List? then (ListBytes(NameCount(d), TextsBytes(Known(d)), open), [NIL])
    else ([NIL], [NIL])
  }

  lemma ParametersAreItems(d: Def, open: bool)
    requires |EntryBytes(d, open)| <= 0xFFFF
    ensures var (a, b) := Parameters(d, open);
            Encoded(EntryItem(d).items[2], open) == Some(a) && Encoded(EntryItem(d).items[3], open) == Some(b)
  {
    if d.typ.Enum? || d.typ.List? {
      TextsAreLong(Known(d));
      NamesAreItem(Known(d), open);
    }
  }

  lemma EntryParts(d: Def, open: bool)
    ensures var (a, b) := Parameters(d, open);
            EntryBytes(d, open)
            == ListBytes(5, TextBytes(d.key) + TextBytes([TypeChar(d.typ)]) + a + b
                            + Head(0, if d.readOnly then 1 else 0), open)
  {
    var (a, b) := Parameters(d, open);
    var head, flags := TextBytes(d.key) + TextBytes([TypeChar(d.typ)]), Head(0, if d.readOnly then 1 else 0);
    assert [NIL] + [NIL] == [NIL, NIL];
    assert head + (a + b) + flags == head + a + b + flags;
  }

  /** What is written for a setting that fits a buffer is its item. */
  lemma EntryIsItem(d: Def, open: bool)
    requires |EntryBytes(d, open)| <= 0xFFFF
    ensures Encoded(EntryItem(d), open) == Some(EntryBytes(d, open))
  {
    var (a, b) := Parameters(d, open);
    var key, typ, flags := TextBytes(d.key), TextBytes([TypeChar(d.typ)]), Head(0, if d.readOnly then 1 else 0);
    TextIsItem(d.key, open);
    TextIsItem([TypeChar(d.typ)], open);
    ParametersAreItems(d, open);
    ItemsAreParts(EntryItem(d).items, [key, typ, a, b, flags], open);
    FlatFive(key, typ, a, b, flags);
    EntryParts(d, open);
  }

  /** And so is read back. */
  lemma EntryReadsBack(d: Def, open: bool, data: Bytes, off: nat)
    requires |EntryBytes(d, open)| <= 0xFFFF && At(data, off, EntryBytes(d, open))
    ensures Parse(data, off) == Parsed(EntryItem(d), off + |EntryBytes(d, open)|)
  {
    EntryIsItem(d, open);
    RoundTrip(EntryItem(d), open, EntryBytes(d, open), data, off);
  }

  /** The item says what the setting is. */
  lemma EntryIs(d: Def)
    ensures var e := EntryItem(d);
            && e.List? && |e.items| == 5 && e.items[0] == Text(d.key) && e.items[1].Text? && |e.items[1].chars| == 1
            && (e.items[1].chars[0] as char == match d.typ
                                               case Bool => 'b' case Uint => 'u' case Enum => 'e'
                                               case Color => 'c' case List => 'l' case Other => '?')
            && (d.typ.Uint? ==> e.items[2] == Int(d.min) && e.items[3] == Int(d.max))
            && (d.typ.Enum? || d.typ.List? ==>
                  && e.items[2].List? && |e.items[2].items| == NameCount(d) && e.items[3] == Null
                  && forall i: nat | i < NameCount(d) :: e.items[2].items[i] == Text(d.names[i]))
            && (d.typ.Bool? || d.typ.Color? || d.typ.Other? ==> e.items[2] == e.items[3] == Null)
            && e.items[4] == Int(if d.readOnly then 1 else 0)
  {
  }

  // ---------------------------------------------------------------------
  // Whole replies
  // ---------------------------------------------------------------------

  const RC: Bytes := [114, 99]              // "rc"
  const NEXT: Bytes := [110, 101, 120, 116] // "next"
  const VALUES: Bytes := [118]              // "v"
  const SETTINGS: Bytes := [115]            // "s"

  /** A reply: no error, what was asked for, and where to go on. */
  function ReplyBytes(name: Bytes, body: Bytes, next: Option<nat>, open: bool): Bytes
    requires next.Some? ==> next.value < U32_END
  {
    MapBytes(if next.Some? then 3 else 2,
             TextBytes(RC) + Head(0, 0) + (TextBytes(name) + body)
             + if next.Some? then TextBytes(NEXT) + Head(0, next.value) else [], open)
  }

  datatype Reading = Reading(item: Item, next: Option<nat>)

  /** What a client makes of a reply; nothing of an error or of anything else. */
  function ReadingOf(b: Bytes, name: Bytes): Option<Reading> {
    var p := Parse(b, 0);
    if p.NoItem? || !p.item.Dict? then None
    else
      var m := p.item.entries;
      if (RC in m && m[RC] != Int(0)) || name !in m then None
      else if NEXT !in m then Some(Reading(m[name], None))
      else if m[NEXT].Int? && m[NEXT].n >= 0 then Some(Reading(m[name], Some(m[NEXT].n)))
      else None
  }

  method ReadReply(b: Bytes, name: Bytes) returns (r: Option<Reading>)
    ensures r == ReadingOf(b, name)
  {
    var p := Decode(b, 0);
    if p.NoItem? || !p.item.Dict? {
      return None;
    }
    var m := p.item.entries;
    if RC in m && m[RC] != Int(0) {
      return None;
    }
    if name !in m {
      return None;
    }
    if NEXT !in m {
      return Some(Reading(m[name], None));
    }
    if !m[NEXT].Int? || m[NEXT].n < 0 {
      return None;
    }
    return Some(Reading(m[name], Some(m[NEXT].n)));
  }

  function ReplyPairs(name: Bytes, body: Bytes, next: Option<nat>): seq<Pair>
    requires next.Some? ==> next.value < U32_END
  {
    [Pair(RC, Head(0, 0)), Pair(name, body)] + if next.Some? then [Pair(NEXT, Head(0, next.value))] else []
  }

  function ReplyItems(item: Item, next: Option<nat>): seq<Item> {
    [Int(0), item] + if next.Some? then [Int(next.value)] else []
  }

  /** The body is read as the item wherever it stands. */
  ghost predicate ReadsAs(body: Bytes, item: Item) {
    forall d: Bytes, off: nat | At(d, off, body) :: Parse(d, off) == Parsed(item, off + |body|)
  }

  lemma ReplyIsMap(name: Bytes, body: Bytes, next: Option<nat>, open: bool)
    requires Short(name) && (next.Some? ==> next.value < U32_END)
    ensures EncodedMap(ReplyPairs(name, body, next), open) == Some(ReplyBytes(name, body, next, open))
  {
    TextIsItem(RC, open);
    TextIsItem(name, open);
    TextIsItem(NEXT, open);
    var two := [Pair(RC, Head(0, 0)), Pair(name, body)];
    EncodedPairsAppend([], two[0]);
    assert [] + [two[0]] == [two[0]] && [two[0]] + [two[1]] == two;
    assert EncodedPairs([]) == Some([]);
    assert [] + (Head(3, |RC|) + RC + Head(0, 0)) == TextBytes(RC) + Head(0, 0);
    EncodedPairsAppend([two[0]], two[1]);
    assert EncodedPairs(two) == Some(TextBytes(RC) + Head(0, 0) + (TextBytes(name) + body));
    if next.Some? {
      EncodedPairsAppend(two, Pair(NEXT, Head(0, next.value)));
    } else {
      assert two + [] == two;
      assert EncodedPairs(two).value + [] == EncodedPairs(two).value;
    }
  }

  lemma ReplyValues(name: Bytes, body: Bytes, item: Item, next: Option<nat>)
    requires ReadsAs(body, item) && (next.Some? ==> next.value < U32_END)
    ensures ValuesAre(ReplyPairs(name, body, next), ReplyItems(item, next))
  {
    var pairs, items := ReplyPairs(name, body, next), ReplyItems(item, next);
    forall i: nat | i < |pairs|
      ensures ValueIs(pairs, items, i)
    {
      if i != 1 {
        forall d: Bytes, off: nat | At(d, off, pairs[i].val)
          ensures Parse(d, off) == Parsed(items[i], off + |pairs[i].val|)
        {
          IntRoundTrip(if i == 0 then 0 else next.value, d, off);
        }
      }
    }
  }

  /** A client reads in a reply what it carries, and where to go on. */
  lemma ReplyReads(name: Bytes, body: Bytes, item: Item, next: Option<nat>, open: bool)
    requires Short(name) && name != RC && name != NEXT && (next.Some? ==> next.value < U32_END) && ReadsAs(body, item)
    ensures ReadingOf(ReplyBytes(name, body, next, open), name) == Some(Reading(item, next))
  {
    var pairs, items, b := ReplyPairs(name, body, next), ReplyItems(item, next), ReplyBytes(name, body, next, open);
    ReplyIsMap(name, body, next, open);
    ReplyValues(name, body, item, next);
    MapRoundTrip(pairs, items, open, b, 0);
    ReplyEntries(name, body, item, next);
  }

  lemma ReplyEntries(name: Bytes, body: Bytes, item: Item, next: Option<nat>)
    requires name != RC && name != NEXT && (next.Some? ==> next.value < U32_END)
    ensures var m := Entries(ReplyPairs(name, body, next), ReplyItems(item, next), map[]);
            && RC in m && m[RC] == Int(0) && name in m && m[name] == item
            && (NEXT in m <==> next.Some?) && (next.Some? ==> m[NEXT] == Int(next.value))
  {
    var two, items := [Pair(RC, Head(0, 0)), Pair(name, body)], [Int(0), item];
    EntriesAppend([], [], two[0], items[0], map[]);
    EntriesAppend([two[0]], [items[0]], two[1], items[1], map[]);
    assert [] + [two[0]] == [two[0]] && [two[0]] + [two[1]] == two;
    assert [] + [items[0]] == [items[0]] && [items[0]] + [items[1]] == items;
    if next.Some? {
      EntriesAppend(two, items, Pair(NEXT, Head(0, next.value)), Int(next.value), map[]);
    } else {
      assert two + [] == two && items + [] == items;
    }
  }

  // ---- The values ----

  /** Setting `id` is answered with `value`. */
  datatype Answer = Answer(id: U8, value: Value)

  datatype GetReply = GetReply(answers: seq<Answer>, next: Option<nat>)

  /** An answer that fits a buffer. */
  predicate Writable(ds: seq<Def>, a: Answer, open: bool) {
    a.id < |ds| && Checked(ds[a.id], a.value) == Ok(a.value) && |ValueBytes(ds[a.id], a.value, open)| <= 0xFFFF
  }

  predicate AllWritable(ds: seq<Def>, answers: seq<Answer>, open: bool) {
    forall i: nat | i < |answers| :: Writable(ds, answers[i], open)
  }

  function ValuesBytes(ds: seq<Def>, answers: seq<Answer>, open: bool): Bytes
    requires AllWritable(ds, answers, open)
  {
    if answers == [] then []
    else
      var k := |answers| - 1;
      ValuesBytes(ds, answers[..k], open) + ValueBytes(ds[answers[k].id], answers[k].value, open)
  }

  /** What a client collects from answers; the later of equal keys counts. */
  function Gathered(ds: seq<Def>, answers: seq<Answer>): map<Bytes, Item> {
    if answers == [] then map[]
    else
      var most, last := answers[..|answers| - 1], answers[|answers| - 1];
      if last.id < |ds| then Gathered(ds, most)[ds[last.id].key := ItemOf(ds[last.id], last.value)]
      else Gathered(ds, most)
  }

  lemma {:induction false} GatheredConcat(ds: seq<Def>, a: seq<Answer>, b: seq<Answer>)
    ensures Gathered(ds, a + b) == Gathered(ds, a) + Gathered(ds, b)
    decreases |b|
  {
    if b == [] {
      assert a + b == a;
    } else {
      var k := |b| - 1;
      GatheredConcat(ds, a, b[..k]);
      assert (a + b)[..|a + b| - 1] == a + b[..k];
    }
  }

  /** The key of an answer, and its value as it is written. */
  function PairOf(ds: seq<Def>, a: Answer, open: bool): Pair
    requires Writable(ds, a, open)
  {
    var b := Encoded(ItemOf(ds[a.id], a.value), open);
    Pair(ds[a.id].key, if b.Some? then b.value else [])
  }

  function Pairs(ds: seq<Def>, answers: seq<Answer>, open: bool): (r: seq<Pair>)
    requires AllWritable(ds, answers, open)
    ensures |r| == |answers|
  {
    if answers == [] then [] else Pairs(ds, answers[..|answers| - 1], open) + [PairOf(ds, answers[|answers| - 1], open)]
  }

  function AnswerItems(ds: seq<Def>, answers: seq<Answer>, open: bool): (r: seq<Item>)
    requires AllWritable(ds, answers, open)
    ensures |r| == |answers|
  {
    if answers == [] then []
    else
      var last := answers[|answers| - 1];
      AnswerItems(ds, answers[..|answers| - 1], open) + [ItemOf(ds[last.id], last.value)]
  }

  lemma AnswerIsPair(ds: seq<Def>, a: Answer, open: bool)
    requires Writable(ds, a, open)
    ensures var p := PairOf(ds, a, open);
            && Short(p.key) && Encoded(ItemOf(ds[a.id], a.value), open) == Some(p.val)
            && ValueBytes(ds[a.id], a.value, open) == Head(3, |p.key|) + p.key + p.val
  {
    ValueIsItem(ds[a.id], a.value, open);
  }

  lemma {:induction false} AnswersArePairs(ds: seq<Def>, answers: seq<Answer>, open: bool)
    requires AllWritable(ds, answers, open)
    ensures EncodedPairs(Pairs(ds, answers, open)) == Some(ValuesBytes(ds, answers, open))
  {
    if answers != [] {
      var most, last := answers[..|answers| - 1], answers[|answers| - 1];
      AnswersArePairs(ds, most, open);
      AnswerIsPair(ds, last, open);
      EncodedPairsAppend(Pairs(ds, most, open), PairOf(ds, last, open));
    }
  }

  lemma {:induction false} AnswersAreEntries(ds: seq<Def>, answers: seq<Answer>, open: bool)
    requires AllWritable(ds, answers, open)
    ensures Entries(Pairs(ds, answers, open), AnswerItems(ds, answers, open), map[]) == Gathered(ds, answers)
    ensures forall i: nat | i < |answers| ::
              Encoded(AnswerItems(ds, answers, open)[i], open) == Some(Pairs(ds, answers, open)[i].val)
  {
    if answers != [] {
      var most, last := answers[..|answers| - 1], answers[|answers| - 1];
      AnswersAreEntries(ds, most, open);
      AnswerIsPair(ds, last, open);
      EntriesAppend(Pairs(ds, most, open), AnswerItems(ds, most, open), PairOf(ds, last, open),
                    ItemOf(ds[last.id], last.value), map[]);
    }
  }

  lemma AnswersRead(ds: seq<Def>, answers: seq<Answer>, open: bool)
    requires AllWritable(ds, answers, open) && |answers| <= 0xFF
    ensures ReadsAs(MapBytes(|answers|, ValuesBytes(ds, answers, open), open), Dict(Gathered(ds, answers)))
  {
    var pairs, items := Pairs(ds, answers, open), AnswerItems(ds, answers, open);
    AnswersArePairs(ds, answers, open);
    AnswersAreEntries(ds, answers, open);
    EncodedValues(pairs, items, open);
    forall d: Bytes, off: nat | At(d, off, MapBytes(|answers|, ValuesBytes(ds, answers, open), open))
      ensures Parse(d, off)
           == Parsed(Dict(Gathered(ds, answers)), off + |MapBytes(|answers|, ValuesBytes(ds, answers, open), open)|)
    {
      MapRoundTrip(pairs, items, open, d, off);
    }
  }

  function GetReplyBytes(ds: seq<Def>, r: GetReply, open: bool): Bytes
    requires AllWritable(ds, r.answers, open) && |r.answers| <= 0xFF && (r.next.Some? ==> r.next.value < U32_END)
  {
    ReplyBytes(VALUES, MapBytes(|r.answers|, ValuesBytes(ds, r.answers, open), open), r.next, open)
  }

  /** A client reads in the reply to a get the answers under their keys. */
  lemma GetReplyReads(ds: seq<Def>, r: GetReply, open: bool)
    requires AllWritable(ds, r.answers, open) && |r.answers| <= 0xFF && (r.next.Some? ==> r.next.value < U32_END)
    ensures ReadingOf(GetReplyBytes(ds, r, open), VALUES) == Some(Reading(Dict(Gathered(ds, r.answers)), r.next))
  {
    AnswersRead(ds, r.answers, open);
    ReplyReads(VALUES, MapBytes(|r.answers|, ValuesBytes(ds, r.answers, open), open), Dict(Gathered(ds, r.answers)),
               r.next, open);
  }

  // ---- The list ----

  datatype ListReply = ListReply(entries: seq<Def>, next: Option<nat>)

  predicate AllListable(ds: seq<Def>, open: bool) {
    forall i: nat | i < |ds| :: |EntryBytes(ds[i], open)| <= 0xFFFF
  }

  function Parts(ds: seq<Def>, open: bool): (r: seq<Bytes>)
    ensures |r| == |ds|
  {
    seq(|ds|, i requires 0 <= i < |ds| => EntryBytes(ds[i], open))
  }

  function EntryItems(ds: seq<Def>): (r: seq<Item>)
    ensures |r| == |ds|
  {
    seq(|ds|, i requires 0 <= i < |ds| => EntryItem(ds[i]))
  }

  function ListReplyBytes(r: ListReply, open: bool): Bytes
    requires |r.entries| <= 0xFF && (r.next.Some? ==> r.next.value < U32_END)
  {
    ReplyBytes(SETTINGS, ListBytes(|r.entries|, Flat(Parts(r.entries, open)), open), r.next, open)
  }

  /** A client reads in the reply to a list its settings in order. */
  lemma ListReplyReads(r: ListReply, open: bool)
    requires AllListable(r.entries, open) && |r.entries| <= 0xFF && (r.next.Some? ==> r.next.value < U32_END)
    ensures ReadingOf(ListReplyBytes(r, open), SETTINGS) == Some(Reading(Item.List(EntryItems(r.entries)), r.next))
  {
    var items, parts := EntryItems(r.entries), Parts(r.entries, open);
    forall i: nat | i < |items|
      ensures Encoded(items[i], open) == Some(parts[i])
    {
      EntryIsItem(r.entries[i], open);
    }
    ItemsAreParts(items, parts, open);
    var body := ListBytes(|r.entries|, Flat(parts), open);
    assert Encoded(Item.List(items), open) == Some(body);
    forall d: Bytes, off: nat | At(d, off, body)
      ensures Parse(d, off) == Parsed(Item.List(items), off + |body|)
    {
      RoundTrip(Item.List(items), open, body, d, off);
    }
    ReplyReads(SETTINGS, body, Item.List(items), r.next, open);
  }

  /** A reply without values, and one without settings that goes on at 5. */
  lemma ReplyExamples()
    ensures GetReplyBytes([], GetReply([], None), true)
            == [0xBF, 0x62, 0x72, 0x63, 0x00, 0x61, 0x76, 0xBF, 0xFF, 0xFF]
    ensures ListReplyBytes(ListReply([], Some(5)), true)
            == [0xBF, 0x62, 0x72, 0x63, 0x00, 0x61, 0x73, 0x9F, 0xFF, 0x64, 0x6E, 0x65, 0x78, 0x74, 0x05, 0xFF]
  {
    assert BigEndian(2, 0) == [] && BigEndian(1, 0) == [] && BigEndian(4, 0) == [];
    assert TextBytes(RC) == [0x62, 0x72, 0x63] && TextBytes(NEXT) == [0x64, 0x6E, 0x65, 0x78, 0x74];
    assert TextBytes(VALUES) == [0x61, 0x76] && TextBytes(SETTINGS) == [0x61, 0x73];
    assert Head(0, 0) == [0] && Head(0, 5) == [5];
    assert MapBytes(0, [], true) == [0xBF, 0xFF] && ListBytes(0, [], true) == [0x9F, 0xFF];
    assert Parts([], true) == [];
  }
}
