/** Self-describing values and the one byte form every file of the engine stores them in. */
module Values {
  import opened Varint
  import opened Wire

  // -- text order ----------------------------------------------------------

  /** Byte-lexicographic, as text compares. */
  predicate Less(a: Bytes, b: Bytes) {
    b != [] && (a == [] || a[0] < b[0] || (a[0] == b[0] && Less(a[1..], b[1..])))
  }

  lemma {:induction false} LessTotal(a: Bytes, b: Bytes)
    ensures Less(a, b) || a == b || Less(b, a)
    ensures !(Less(a, b) && Less(b, a))
  {
    if a != [] && b != [] {
      LessTotal(a[1..], b[1..]);
      assert a == [a[0]] + a[1..] && b == [b[0]] + b[1..];
    }
  }

  lemma {:induction false} LessTransitive(a: Bytes, b: Bytes, c: Bytes)
    requires Less(a, b) && Less(b, c)
    ensures Less(a, c)
    decreases |a|
  {
    if a != [] && a[0] == b[0] == c[0] {
      LessTransitive(a[1..], b[1..], c[1..]);
    }
  }

  // -- ordered maps --------------------------------------------------------

  datatype Entry<T> = Entry(key: Text, value: T)

  predicate Ascending<T>(d: seq<Entry<T>>) {
    forall i | 0 <= i < |d| - 1 :: Less(d[i].key, d[i + 1].key)
  }

  /** A map from text, as its entries in key order. */
  type Dict<T> = d: seq<Entry<T>> | |d| < TWO64 && Ascending(d) witness []

  /** Insert, or replace what the key held. */
  function Put<T>(d: seq<Entry<T>>, key: Text, value: T): (r: seq<Entry<T>>)
    requires Ascending(d)
    ensures Ascending(r) && |r| <= |d| + 1
    ensures r != [] && (r[0].key == key || (d != [] && r[0].key == d[0].key))
  {
    var e := Entry(key, value);
    if d == [] then [e]
    else if Less(key, d[0].key) then [e] + d
    else if key == d[0].key then [e] + d[1..]
    else
      LessTotal(key, d[0].key);
      [d[0]] + Put(d[1..], key, value)
  }

  lemma {:induction false} PutLast<T>(d: seq<Entry<T>>, e: Entry<T>)
    requires Ascending(d + [e])
    ensures Ascending(d) && Put(d, e.key, e.value) == d + [e]
    ensures d != [] ==> Less(d[0].key, e.key)
  {
    hide Less;
    assert forall i | 0 <= i < |d| :: (d + [e])[i] == d[i] && (d + [e])[|d|] == e;
    if d != [] {
      var rest := d[1..];
      assert d + [e] == [d[0]] + (rest + [e]);
      assert forall i | 0 <= i < |rest| :: (rest + [e])[i] == (d + [e])[i + 1];
      PutLast(rest, e);
      assert Less(d[0].key, (d + [e])[1].key);
      if rest != [] {
        LessTransitive(d[0].key, rest[0].key, e.key);
      }
      LessTotal(d[0].key, e.key);
    }
  }

  // -- values --------------------------------------------------------------

  datatype Value =
    | Null
    | Bool(b: bool)
    | I64(n: i64)
    | U64(u: u64)
    | F64(bits: u64)
    | Decimal(units: i128, scale: byte)
    | Timestamp(t: i64)
    | Str(text: Text)
    | Blob(blob: Few<byte>)
    | List(items: Few<Value>)
    | Map(entries: Dict<Value>)

  const MAX_DEPTH: nat := 64

  /** No part of `v` lies more than `room` levels down. */
  predicate Within(v: Value, room: int)
    decreases v
  {
    && room >= 0
    && match v
       case List(items) => forall i | 0 <= i < |items| :: Within(items[i], room - 1)
       case Map(d) => forall i | 0 <= i < |d| :: Within(d[i].value, room - 1)
       case _ => true
  }

  function EncodeValue(v: Value): (b: Bytes)
    ensures b != []
    decreases v
  {
    match v
    case Null => [0]
    case Bool(b) => [if b then 2 else 1]
    case I64(n) => [3] + Encode(Zigzag(n))
    case U64(u) => [4] + Encode(u)
    case F64(bits) => [5] + LowBytes(bits, 8)
    case Str(t) => [6] + EncodeText(t)
    case Blob(b) => [7] + (Encode(|b|) + b)
    case List(items) => [8] + (Encode(|items|) + EncodeItems(items))
    case Map(d) => [9] + (Encode(|d|) + EncodeEntries(d))
    case Decimal(units, scale) => [10] + ([scale] + LowBytes(units % TWO128, 16))
    case Timestamp(t) => [11] + LowBytes(t % TWO64, 8)
  }

  function EncodeItems(vs: seq<Value>): (b: Bytes)
    ensures |b| >= |vs|
    decreases vs
  {
    if vs == [] then [] else EncodeValue(vs[0]) + EncodeItems(vs[1..])
  }

  function EncodeEntries(d: seq<Entry<Value>>): (b: Bytes)
    ensures |b| >= |d|
    decreases d
  {
    if d == [] then []
    else match d[0] case Entry(key, value) =>
      EncodeText(key) + EncodeValue(value) + EncodeEntries(d[1..])
  }

  /** The values with no parts, by tag. */
  function DecodeLeaf(tag: byte, body: Bytes): (r: Parsed<Value>)
    ensures r.Ok? ==> Suffix(r.rest, body)
  {
    match tag
    case 0 => Ok(Null, body)
    case 1 => Ok(Bool(false), body)
    case 2 => Ok(Bool(true), body)
    case 3 => var (u, rest) :- ReadVarint(body); Ok(I64(Unzigzag(u)), rest)
    case 4 => var (u, rest) :- ReadVarint(body); Ok(U64(u), rest)
    case 5 => var (u, rest) :- ReadU64(body); Ok(F64(u), rest)
    case 6 => var (t, rest) :- ReadText(body); Ok(Str(t), rest)
    case 7 => ReadBlob(body)
    case 10 => ReadDecimal(body)
    case 11 => var (u, rest) :- ReadU64(body); Ok(Timestamp(Wrap(u)), rest)
    case _ => Bad
  }

  function ReadBlob(b: Bytes): (r: Parsed<Value>)
    ensures r.Ok? ==> Suffix(r.rest, b)
  {
    var (n, body) :- ReadVarint(b);
    var (raw, rest) :- Take(body, n);
    Ok(Blob(raw), rest)
  }

  function ReadDecimal(b: Bytes): (r: Parsed<Value>)
    ensures r.Ok? ==> Suffix(r.rest, b)
  {
    var (scale, body) :- ReadByte(b);
    var (n, rest) :- ReadLe(body, 16);
    Widths();
    Ok(Decimal(Wrap128(n), scale), rest)
  }

  /** A declared count of parts, refused when the bytes left could not hold one byte for each. */
  function ReadCount(b: Bytes): (r: Parsed<u64>)
    ensures r.Ok? ==> r.value <= |r.rest| && Suffix(r.rest, b)
  {
    var (n, rest) :- ReadVarint(b);
    if n > |rest| then Bad else Ok(n, rest)
  }

  /** The tag, then what it selects. */
  function DecodeValue(b: Bytes, depth: nat): (r: Parsed<Value>)
    ensures r.Ok? ==> |r.rest| < |b| && Suffix(r.rest, b)
    decreases MAX_DEPTH + 1 - depth, 2, 0
  {
    if depth > MAX_DEPTH then Bad
    else
      var (tag, body) :- ReadByte(b);
      if tag == 8 then DecodeList(body, depth)
      else if tag == 9 then DecodeMap(body, depth)
      else DecodeLeaf(tag, body)
  }

  function DecodeList(body: Bytes, depth: nat): (r: Parsed<Value>)
    requires depth <= MAX_DEPTH
    ensures r.Ok? ==> Suffix(r.rest, body)
    decreases MAX_DEPTH + 1 - depth, 1, 0
  {
    var (n, tail) :- ReadCount(body);
    var (items, rest) :- DecodeItems(n, tail, depth);
    Ok(List(items), rest)
  }

  function DecodeMap(body: Bytes, depth: nat): (r: Parsed<Value>)
    requires depth <= MAX_DEPTH
    ensures r.Ok? ==> Suffix(r.rest, body)
    decreases MAX_DEPTH + 1 - depth, 1, 0
  {
    var (n, tail) :- ReadCount(body);
    var (d, rest) :- DecodeEntries(n, tail, depth, []);
    Ok(Map(d), rest)
  }

  function DecodeItems(n: nat, b: Bytes, depth: nat): (r: Parsed<seq<Value>>)
    requires depth <= MAX_DEPTH
    ensures r.Ok? ==> |r.value| == n && Suffix(r.rest, b)
    decreases MAX_DEPTH + 1 - depth, 0, n
  {
    if n == 0 then Ok([], b)
    else
      var (v, tail) :- DecodeValue(b, depth + 1);
      var (vs, rest) :- DecodeItems(n - 1, tail, depth);
      Ok([v] + vs, rest)
  }

  /** Entries go into the map as they are read, so a repeated key keeps the last value. */
  function DecodeEntries(n: nat, b: Bytes, depth: nat, d: seq<Entry<Value>>): (r: Parsed<seq<Entry<Value>>>)
    requires depth <= MAX_DEPTH && Ascending(d)
    ensures r.Ok? ==> Ascending(r.value) && |r.value| <= |d| + n && Suffix(r.rest, b)
    decreases MAX_DEPTH + 1 - depth, 0, n
  {
    if n == 0 then Ok(d, b)
    else
      var (key, mid) :- ReadText(b);
      var (v, tail) :- DecodeValue(mid, depth + 1);
      DecodeEntries(n - 1, tail, depth, Put(d, key, v))
  }

  // -- decoding undoes encoding --------------------------------------------

  predicate Leaf(v: Value) { !v.List? && !v.Map? }

  function Tag(v: Value): byte {
    match v
    case Null => 0
    case Bool(b) => if b then 2 else 1
    case I64(_) => 3
    case U64(_) => 4
    case F64(_) => 5
    case Str(_) => 6
    case Blob(_) => 7
    case List(_) => 8
    case Map(_) => 9
    case Decimal(_, _) => 10
    case Timestamp(_) => 11
  }

  lemma TagFirst(v: Value)
    ensures EncodeValue(v)[0] == Tag(v)
  {
  }

  lemma DecimalRoundTrip(units: i128, scale: byte, suffix: Bytes)
    ensures ReadDecimal([scale] + LowBytes(units % TWO128, 16) + suffix) == Ok(Decimal(units, scale), suffix)
  {
    hide Suffix, LowBytes, ReadLe;
    var tail := LowBytes(units % TWO128, 16) + suffix;
    var b := [scale] + LowBytes(units % TWO128, 16) + suffix;
    assert b == [scale] + tail && b[1..] == tail;
    Widths();
    ReadLeOf(units % TWO128, 16, suffix);
  }

  lemma BlobRoundTrip(b: Few<byte>, suffix: Bytes)
    ensures ReadBlob(Encode(|b|) + b + suffix) == Ok(Blob(b), suffix)
  {
    hide Suffix, ReadVarint, Encode, Take, DecodeValue, EncodeValue;
    assert Encode(|b|) + b + suffix == Encode(|b|) + (b + suffix);
    ReadVarintOf(|b|, b + suffix);
    TakeWhole(b, suffix);
  }

  lemma ReadU64Of(n: u64, suffix: Bytes)
    ensures ReadU64(LowBytes(n, 8) + suffix) == Ok(n, suffix)
  {
    Widths();
    ReadLeOf(n, 8, suffix);
  }

  /** A leaf's bytes after its tag. */
  lemma LeafRoundTrip(v: Value, suffix: Bytes)
    requires Leaf(v)
    ensures DecodeLeaf(Tag(v), EncodeValue(v)[1..] + suffix) == Ok(v, suffix)
  {
    hide ReadVarint, ReadU64, ReadText, ReadBlob, ReadDecimal, Encode, LowBytes, Zigzag, Unzigzag, Suffix, EncodeText;
    var body := EncodeValue(v)[1..];
    match v
    case Null =>
    case Bool(_) =>
    case I64(n) => ZigzagRoundTrip(n); ReadVarintOf(Zigzag(n), suffix); assert body == Encode(Zigzag(n));
    case U64(u) => ReadVarintOf(u, suffix); assert body == Encode(u);
    case F64(bits) => ReadU64Of(bits, suffix); assert body == LowBytes(bits, 8);
    case Str(t) => ReadTextOf(t, suffix); assert body == EncodeText(t);
    case Blob(b) => BlobRoundTrip(b, suffix); assert body == Encode(|b|) + b;
    case Decimal(units, scale) => DecimalRoundTrip(units, scale, suffix); assert body == [scale] + LowBytes(units % TWO128, 16);
    case Timestamp(t) => ReadU64Of(t % TWO64, suffix); assert body == LowBytes(t % TWO64, 8);
  }

  /** What the tag byte selects. */
  lemma DecodeTagged(tag: byte, body: Bytes, depth: nat)
    requires depth <= MAX_DEPTH
    ensures DecodeValue([tag] + body, depth) ==
      (if tag == 8 then DecodeList(body, depth) else if tag == 9 then DecodeMap(body, depth) else DecodeLeaf(tag, body))
  {
    hide DecodeItems, DecodeEntries, DecodeLeaf, ReadCount, Suffix;
    assert ([tag] + body)[1..] == body;
  }

  lemma CountOf(n: u64, tail: Bytes)
    requires n <= |tail|
    ensures ReadCount(Encode(n) + tail) == Ok(n, tail)
  {
    hide ReadVarint, Suffix, Encode;
    ReadVarintOf(n, tail);
  }

  lemma ListOf(items: Few<Value>, suffix: Bytes, depth: nat)
    requires depth <= MAX_DEPTH
    ensures EncodeValue(List(items)) + suffix == [8] + (Encode(|items|) + (EncodeItems(items) + suffix))
    ensures DecodeValue(EncodeValue(List(items)) + suffix, depth) ==
      match DecodeItems(|items|, EncodeItems(items) + suffix, depth) { case Bad => Bad case Ok(vs, rest) => Ok(List(vs), rest) }
  {
    var tail := EncodeItems(items) + suffix;
    var body := Encode(|items|) + tail;
    assert EncodeValue(List(items)) + suffix == [8] + body;
    hide EncodeItems, DecodeItems, DecodeValue, Encode, ReadCount, Suffix;
    DecodeTagged(8, body, depth);
    CountOf(|items|, tail);
  }

  lemma MapOf(d: Dict<Value>, suffix: Bytes, depth: nat)
    requires depth <= MAX_DEPTH
    ensures EncodeValue(Map(d)) + suffix == [9] + (Encode(|d|) + (EncodeEntries(d) + suffix))
    ensures DecodeValue(EncodeValue(Map(d)) + suffix, depth) ==
      match DecodeEntries(|d|, EncodeEntries(d) + suffix, depth, []) { case Bad => Bad case Ok(e, rest) => Ok(Map(e), rest) }
  {
    var tail := EncodeEntries(d) + suffix;
    var body := Encode(|d|) + tail;
    assert EncodeValue(Map(d)) + suffix == [9] + body;
    hide EncodeEntries, DecodeEntries, DecodeValue, Encode, ReadCount, Suffix;
    DecodeTagged(9, body, depth);
    CountOf(|d|, tail);
  }

  lemma LeafOf(v: Value, suffix: Bytes, depth: nat)
    requires depth <= MAX_DEPTH && Leaf(v)
    ensures DecodeValue(EncodeValue(v) + suffix, depth) == Ok(v, suffix)
  {
    var body := EncodeValue(v)[1..] + suffix;
    TagFirst(v);
    assert EncodeValue(v) + suffix == [Tag(v)] + body;
    assert Tag(v) != 8 && Tag(v) != 9;
    hide *;
    DecodeTagged(Tag(v), body, depth);
    LeafRoundTrip(v, suffix);
  }

  /**
   * What reading back gives for every value: itself, when nothing in it lies too
   * deep, and an error otherwise - the writer has no depth limit, the reader does.
   */
  lemma {:induction false} ValueRoundTrip(v: Value, suffix: Bytes, depth: nat)
    requires depth <= MAX_DEPTH
    ensures DecodeValue(EncodeValue(v) + suffix, depth) == Expected(Within(v, MAX_DEPTH - depth), v, suffix)
    decreases v, 0
  {
    WithinParts(v, depth);
    hide EncodeValue, DecodeValue, EncodeItems, DecodeItems, EncodeEntries, DecodeEntries, Encode, Suffix, Within, AllWithin, AllEntriesWithin;
    match v
    case List(items) =>
      ListOf(items, suffix, depth);
      ItemsRoundTrip(items, suffix, depth);
    case Map(d) =>
      MapOf(d, suffix, depth);
      EntriesRoundTrip([], d, suffix, depth);
      assert [] + d == d;
    case _ =>
      LeafOf(v, suffix, depth);
  }

  /** A reader's answer for an encoding of `v`: `v`, or a refusal. */
  function Expected<T>(accepted: bool, v: T, suffix: Bytes): Parsed<T> {
    if accepted then Ok(v, suffix) else Bad
  }

  lemma WithinParts(v: Value, depth: nat)
    requires depth <= MAX_DEPTH
    ensures v.List? ==> (Within(v, MAX_DEPTH - depth) <==> AllWithin(v.items, depth))
    ensures v.Map? ==> (Within(v, MAX_DEPTH - depth) <==> AllEntriesWithin(v.entries, depth))
    ensures Leaf(v) ==> Within(v, MAX_DEPTH - depth)
  {
  }

  predicate AllWithin(vs: seq<Value>, depth: nat)
  {
    forall i | 0 <= i < |vs| :: Within(vs[i], MAX_DEPTH - (depth + 1))
  }

  lemma TooDeep(b: Bytes)
    ensures DecodeValue(b, MAX_DEPTH + 1) == Bad
  {
  }

  lemma AllWithinNext(vs: seq<Value>, depth: nat)
    requires vs != []
    ensures AllWithin(vs, depth) <==> Within(vs[0], MAX_DEPTH - (depth + 1)) && AllWithin(vs[1..], depth)
  {
    assert vs == [vs[0]] + vs[1..];
    assert forall i | 0 <= i < |vs| - 1 :: vs[1..][i] == vs[i + 1];
  }

  /** One item read: the rest follow, or nothing does. */
  function ItemsAfter(first: Parsed<Value>, n: nat, depth: nat): Parsed<seq<Value>>
    requires n > 0 && depth <= MAX_DEPTH
  {
    var (v, tail) :- first;
    var (vs, rest) :- DecodeItems(n - 1, tail, depth);
    Ok([v] + vs, rest)
  }

  lemma ItemsNext(n: nat, b: Bytes, depth: nat)
    requires n > 0 && depth <= MAX_DEPTH
    ensures DecodeItems(n, b, depth) == ItemsAfter(DecodeValue(b, depth + 1), n, depth)
  {
    hide DecodeValue, Suffix;
  }

  lemma ItemsExpected(w: bool, v: Value, tail: Bytes, depth: nat, ok: bool, vs: seq<Value>, suffix: Bytes)
    requires depth <= MAX_DEPTH && DecodeItems(|vs|, tail, depth) == Expected(ok, vs, suffix)
    ensures ItemsAfter(Expected(w, v, tail), |vs| + 1, depth) == Expected(w && ok, [v] + vs, suffix)
  {
    hide DecodeItems, Suffix;
  }

  lemma {:induction false} ItemsRoundTrip(vs: seq<Value>, suffix: Bytes, depth: nat)
    requires depth <= MAX_DEPTH
    ensures DecodeItems(|vs|, EncodeItems(vs) + suffix, depth) == Expected(AllWithin(vs, depth), vs, suffix)
    decreases vs, 2
  {
    if vs == [] {
      assert EncodeItems(vs) + suffix == suffix;
    } else {
      var v, rest := vs[0], vs[1..];
      var tail := EncodeItems(rest) + suffix;
      assert EncodeItems(vs) + suffix == EncodeValue(v) + tail;
      assert vs == [v] + rest;
      hide *;
      ItemsNext(|vs|, EncodeValue(v) + tail, depth);
      AllWithinNext(vs, depth);
      ItemsRoundTrip(rest, suffix, depth);
      FirstExpected(v, tail, depth);
      ItemsExpected(Within(v, MAX_DEPTH - (depth + 1)), v, tail, depth, AllWithin(rest, depth), rest, suffix);
    }
  }

  /** A part of a value at this depth. */
  lemma {:induction false} FirstExpected(v: Value, tail: Bytes, depth: nat)
    requires depth <= MAX_DEPTH
    ensures DecodeValue(EncodeValue(v) + tail, depth + 1) ==
      Expected(Within(v, MAX_DEPTH - (depth + 1)), v, tail)
    decreases v, 1
  {
    hide EncodeValue, DecodeValue, Suffix;
    if depth < MAX_DEPTH {
      hide *;
      ValueRoundTrip(v, tail, depth + 1);
    } else {
      TooDeep(EncodeValue(v) + tail);
    }
  }

  predicate AllEntriesWithin(d: seq<Entry<Value>>, depth: nat)
  {
    forall i | 0 <= i < |d| :: Within(d[i].value, MAX_DEPTH - (depth + 1))
  }

  lemma AllEntriesWithinNext(d: seq<Entry<Value>>, depth: nat)
    requires d != []
    ensures AllEntriesWithin(d, depth) <==>
      Within(d[0].value, MAX_DEPTH - (depth + 1)) && AllEntriesWithin(d[1..], depth)
  {
    assert d == [d[0]] + d[1..];
    assert forall i | 0 <= i < |d| - 1 :: d[1..][i] == d[i + 1];
  }

  function EntriesAfter(first: Parsed<Value>, n: nat, key: Text, depth: nat, done: seq<Entry<Value>>): Parsed<seq<Entry<Value>>>
    requires n > 0 && depth <= MAX_DEPTH && Ascending(done)
  {
    var (v, tail) :- first;
    DecodeEntries(n - 1, tail, depth, Put(done, key, v))
  }

  lemma EntriesNext(n: nat, key: Text, mid: Bytes, depth: nat, done: seq<Entry<Value>>)
    requires n > 0 && depth <= MAX_DEPTH && Ascending(done)
    ensures DecodeEntries(n, EncodeText(key) + mid, depth, done) == EntriesAfter(DecodeValue(mid, depth + 1), n, key, depth, done)
  {
    hide DecodeValue, Suffix, Put, ReadText, EncodeText, Less;
    ReadTextOf(key, mid);
  }

  lemma EntriesExpected(w: bool, e: Entry<Value>, tail: Bytes, depth: nat, done: seq<Entry<Value>>, n: nat, ok: bool, d: seq<Entry<Value>>, suffix: Bytes)
    requires depth <= MAX_DEPTH && Ascending(done) && Ascending(done + [e])
    requires Put(done, e.key, e.value) == done + [e]
    requires DecodeEntries(n, tail, depth, done + [e]) == Expected(ok, d, suffix)
    ensures EntriesAfter(Expected(w, e.value, tail), n + 1, e.key, depth, done) == Expected(w && ok, d, suffix)
  {
    hide DecodeEntries, Suffix, Put, Less;
  }

  lemma {:induction false} EntriesRoundTrip(done: seq<Entry<Value>>, d: seq<Entry<Value>>, suffix: Bytes, depth: nat)
    requires depth <= MAX_DEPTH && Ascending(done + d)
    ensures Ascending(done)
    ensures DecodeEntries(|d|, EncodeEntries(d) + suffix, depth, done) == Expected(AllEntriesWithin(d, depth), done + d, suffix)
    decreases d, 2
  {
    AscendingFront(done, d);
    if d == [] {
      assert EncodeEntries(d) + suffix == suffix && done + d == done;
    } else {
      var e, rest := d[0], d[1..];
      var tail := EncodeEntries(rest) + suffix;
      EntriesSplit(done, d, suffix);
      hide *;
      EntriesNext(|d|, e.key, EncodeValue(e.value) + tail, depth, done);
      AllEntriesWithinNext(d, depth);
      EntriesRoundTrip(done + [e], rest, suffix, depth);
      FirstExpected(e.value, tail, depth);
      EntriesExpected(Within(e.value, MAX_DEPTH - (depth + 1)), e, tail, depth, done,
        |rest|, AllEntriesWithin(rest, depth), done + d, suffix);
    }
  }

  lemma EntriesSplit(done: seq<Entry<Value>>, d: seq<Entry<Value>>, suffix: Bytes)
    requires Ascending(done + d) && d != []
    ensures Ascending(done + [d[0]] + d[1..]) && done + [d[0]] + d[1..] == done + d
    ensures Ascending(done) && Put(done, d[0].key, d[0].value) == done + [d[0]]
    ensures EncodeEntries(d) + suffix ==
      EncodeText(d[0].key) + (EncodeValue(d[0].value) + (EncodeEntries(d[1..]) + suffix))
  {
    hide *;
    var e, rest := d[0], d[1..];
    assert done + d == done + [e] + rest;
    AscendingFront(done, d);
    AscendingFront(done + [e], rest);
    PutLast(done, e);
    EntriesLayout(d, suffix);
  }

  lemma EntriesLayout(d: seq<Entry<Value>>, suffix: Bytes)
    requires d != []
    ensures EncodeEntries(d) + suffix ==
      EncodeText(d[0].key) + (EncodeValue(d[0].value) + (EncodeEntries(d[1..]) + suffix))
  {
    hide EncodeText, EncodeValue, Suffix;
  }

  lemma AscendingFront<T>(a: seq<Entry<T>>, b: seq<Entry<T>>)
    requires Ascending(a + b)
    ensures Ascending(a)
  {
    assert forall i | 0 <= i < |a| :: (a + b)[i] == a[i];
  }

  // -- bytes that follow change nothing ------------------------------------

  lemma LeafFollowed(tag: byte, body: Bytes, suffix: Bytes)
    requires DecodeLeaf(tag, body).Ok?
    ensures DecodeLeaf(tag, body + suffix) == DecodeLeaf(tag, body).Followed(suffix)
  {
    if tag == 3 || tag == 4 {
      VarintLeafFollowed(tag, body, suffix);
    } else if tag == 5 || tag == 11 {
      WordLeafFollowed(tag, body, suffix);
    } else if tag == 6 || tag == 7 {
      BytesLeafFollowed(tag, body, suffix);
    } else {
      hide ReadDecimal, Suffix;
      if tag == 10 {
        DecimalFollowed(body, suffix);
      }
    }
  }

  lemma VarintLeafFollowed(tag: byte, body: Bytes, suffix: Bytes)
    requires (tag == 3 || tag == 4) && DecodeLeaf(tag, body).Ok?
    ensures DecodeLeaf(tag, body + suffix) == DecodeLeaf(tag, body).Followed(suffix)
  {
    hide ReadVarint, Suffix;
    ReadVarintFollowed(body, suffix);
  }

  lemma WordLeafFollowed(tag: byte, body: Bytes, suffix: Bytes)
    requires (tag == 5 || tag == 11) && DecodeLeaf(tag, body).Ok?
    ensures DecodeLeaf(tag, body + suffix) == DecodeLeaf(tag, body).Followed(suffix)
  {
    hide ReadLe, Suffix;
    ReadLeFollowed(body, 8, suffix);
  }

  lemma BytesLeafFollowed(tag: byte, body: Bytes, suffix: Bytes)
    requires (tag == 6 || tag == 7) && DecodeLeaf(tag, body).Ok?
    ensures DecodeLeaf(tag, body + suffix) == DecodeLeaf(tag, body).Followed(suffix)
  {
    hide ReadText, ReadVarint, Take, Suffix;
    if tag == 6 {
      ReadTextFollowed(body, suffix);
    } else {
      ReadVarintFollowed(body, suffix);
      var (n, tail) := ReadVarint(body).Extract();
      TakeFollowed(tail, n, suffix);
    }
  }

  lemma DecimalFollowed(body: Bytes, suffix: Bytes)
    requires ReadDecimal(body).Ok?
    ensures ReadDecimal(body + suffix) == ReadDecimal(body).Followed(suffix)
  {
    hide ReadLe, Suffix;
    var tail := body[1..];
    assert (body + suffix)[1..] == tail + suffix;
    ReadLeFollowed(tail, 16, suffix);
  }

  lemma CountFollowed(b: Bytes, suffix: Bytes)
    requires ReadCount(b).Ok?
    ensures ReadCount(b + suffix) == ReadCount(b).Followed(suffix)
  {
    hide ReadVarint, Suffix;
    ReadVarintFollowed(b, suffix);
  }

  lemma {:induction false} ValueFollowed(b: Bytes, suffix: Bytes, depth: nat)
    requires DecodeValue(b, depth).Ok?
    ensures DecodeValue(b + suffix, depth) == DecodeValue(b, depth).Followed(suffix)
    decreases MAX_DEPTH + 1 - depth, 1, 0
  {
    assert depth <= MAX_DEPTH && b != [];
    var tag, body := b[0], b[1..];
    assert b == [tag] + body && b + suffix == [tag] + (body + suffix);
    hide DecodeValue, DecodeItems, DecodeEntries, DecodeLeaf, ReadCount, Suffix;
    DecodeTagged(tag, body, depth);
    DecodeTagged(tag, body + suffix, depth);
    if tag == 8 {
      CountFollowed(body, suffix);
      var (n, tail) := ReadCount(body).Extract();
      ItemsFollowed(n, tail, suffix, depth);
    } else if tag == 9 {
      CountFollowed(body, suffix);
      var (n, tail) := ReadCount(body).Extract();
      EntriesFollowed(n, tail, suffix, depth, []);
    } else {
      LeafFollowed(tag, body, suffix);
    }
  }

  lemma {:induction false} ItemsFollowed(n: nat, b: Bytes, suffix: Bytes, depth: nat)
    requires depth <= MAX_DEPTH && DecodeItems(n, b, depth).Ok?
    ensures DecodeItems(n, b + suffix, depth) == DecodeItems(n, b, depth).Followed(suffix)
    decreases MAX_DEPTH + 1 - depth, 0, n
  {
    if n == 0 {
      hide DecodeValue, ReadText, Put, Less, Suffix;
    } else {
      hide *;
      ItemsNext(n, b, depth);
      ItemsNext(n, b + suffix, depth);
      var first := DecodeValue(b, depth + 1);
      ItemsParts(first, n, depth);
      ValueFollowed(b, suffix, depth + 1);
      ItemsFollowed(n - 1, first.rest, suffix, depth);
      ItemsAfterFollowed(first, n, depth, suffix);
    }
  }

  lemma ItemsParts(first: Parsed<Value>, n: nat, depth: nat)
    requires n > 0 && depth <= MAX_DEPTH && ItemsAfter(first, n, depth).Ok?
    ensures first.Ok? && DecodeItems(n - 1, first.rest, depth).Ok?
  {
    hide DecodeItems;
  }

  lemma ItemsAfterFollowed(first: Parsed<Value>, n: nat, depth: nat, suffix: Bytes)
    requires n > 0 && depth <= MAX_DEPTH && first.Ok?
    requires DecodeItems(n - 1, first.rest + suffix, depth) == DecodeItems(n - 1, first.rest, depth).Followed(suffix)
    ensures ItemsAfter(first.Followed(suffix), n, depth) == ItemsAfter(first, n, depth).Followed(suffix)
  {
    hide DecodeItems, Suffix;
  }

  lemma {:induction false} EntriesFollowed(n: nat, b: Bytes, suffix: Bytes, depth: nat, d: seq<Entry<Value>>)
    requires depth <= MAX_DEPTH && Ascending(d) && DecodeEntries(n, b, depth, d).Ok?
    ensures DecodeEntries(n, b + suffix, depth, d) == DecodeEntries(n, b, depth, d).Followed(suffix)
    decreases MAX_DEPTH + 1 - depth, 0, n
  {
    if n == 0 {
      hide DecodeValue, ReadText, Put, Less, Suffix;
    } else {
      hide *;
      EntriesRead(n, b, depth, d);
      var key := ReadText(b);
      EntriesParts(key, n, depth, d);
      var mid := key.rest;
      var first := DecodeValue(mid, depth + 1);
      ValueFollowed(mid, suffix, depth + 1);
      EntriesFollowed(n - 1, first.rest, suffix, depth, Put(d, key.value, first.value));
      EntriesFromFollowed(key, n, depth, d, suffix);
      EntriesReadFollowed(n, b, depth, d, suffix);
    }
  }

  lemma EntriesReadFollowed(n: nat, b: Bytes, depth: nat, d: seq<Entry<Value>>, suffix: Bytes)
    requires n > 0 && depth <= MAX_DEPTH && Ascending(d) && ReadText(b).Ok?
    ensures DecodeEntries(n, b + suffix, depth, d) == EntriesFrom(ReadText(b).Followed(suffix), n, depth, d)
  {
    hide *;
    EntriesRead(n, b + suffix, depth, d);
    ReadTextFollowed(b, suffix);
  }

  function EntriesFrom(key: Parsed<Text>, n: nat, depth: nat, d: seq<Entry<Value>>): Parsed<seq<Entry<Value>>>
    requires n > 0 && depth <= MAX_DEPTH && Ascending(d)
  {
    var (k, mid) :- key;
    EntriesAfter(DecodeValue(mid, depth + 1), n, k, depth, d)
  }

  lemma EntriesRead(n: nat, b: Bytes, depth: nat, d: seq<Entry<Value>>)
    requires n > 0 && depth <= MAX_DEPTH && Ascending(d)
    ensures DecodeEntries(n, b, depth, d) == EntriesFrom(ReadText(b), n, depth, d)
  {
    hide ReadText, DecodeValue, Put, Less, Suffix;
  }

  lemma EntriesParts(key: Parsed<Text>, n: nat, depth: nat, d: seq<Entry<Value>>)
    requires n > 0 && depth <= MAX_DEPTH && Ascending(d) && EntriesFrom(key, n, depth, d).Ok?
    ensures key.Ok? && DecodeValue(key.rest, depth + 1).Ok?
    ensures var first := DecodeValue(key.rest, depth + 1);
      DecodeEntries(n - 1, first.rest, depth, Put(d, key.value, first.value)).Ok?
  {
    hide DecodeValue, DecodeEntries, Put, Less, Suffix;
  }

  lemma EntriesFromFollowed(key: Parsed<Text>, n: nat, depth: nat, d: seq<Entry<Value>>, suffix: Bytes)
    requires n > 0 && depth <= MAX_DEPTH && Ascending(d) && key.Ok?
    requires DecodeValue(key.rest, depth + 1).Ok?
    requires DecodeValue(key.rest + suffix, depth + 1) == DecodeValue(key.rest, depth + 1).Followed(suffix)
    requires var first := DecodeValue(key.rest, depth + 1);
      var next := Put(d, key.value, first.value);
      DecodeEntries(n - 1, first.rest + suffix, depth, next) == DecodeEntries(n - 1, first.rest, depth, next).Followed(suffix)
    ensures EntriesFrom(key.Followed(suffix), n, depth, d) == EntriesFrom(key, n, depth, d).Followed(suffix)
  {
    hide DecodeValue, DecodeEntries, Put, Less, Suffix;
  }

  /** The reader stops where the writer did: no value can be read from part of another's bytes. */
  lemma PartOfValueRefused(v: Value, part: Bytes, missing: Bytes)
    requires EncodeValue(v) == part + missing && missing != []
    ensures DecodeValue(part, 0) == Bad
  {
    hide DecodeValue, EncodeValue, Suffix;
    assert EncodeValue(v) + [] == EncodeValue(v);
    ValueRoundTrip(v, [], 0);
    if DecodeValue(part, 0).Ok? {
      ValueFollowed(part, missing, 0);
    }
  }

  // -- what is read can be read again --------------------------------------

  lemma LeafDecoded(tag: byte, body: Bytes)
    requires DecodeLeaf(tag, body).Ok?
    ensures Leaf(DecodeLeaf(tag, body).value)
  {
    hide ReadVarint, ReadText, ReadLe, Take, Suffix;
  }

  /** Whatever the reader accepts lies within its own depth limit. */
  lemma {:induction false} DecodedWithin(b: Bytes, depth: nat)
    requires DecodeValue(b, depth).Ok?
    ensures depth <= MAX_DEPTH && Within(DecodeValue(b, depth).value, MAX_DEPTH - depth)
    decreases MAX_DEPTH + 1 - depth, 1, 0
  {
    assert depth <= MAX_DEPTH && b != [];
    var tag, body := b[0], b[1..];
    assert b == [tag] + body;
    hide DecodeValue, DecodeItems, DecodeEntries, DecodeLeaf, ReadCount, Suffix, Within, AllWithin, AllEntriesWithin;
    DecodeTagged(tag, body, depth);
    WithinParts(DecodeValue(b, depth).value, depth);
    if tag == 8 {
      var (n, tail) := ReadCount(body).Extract();
      ItemsDecodedWithin(n, tail, depth);
    } else if tag == 9 {
      var (n, tail) := ReadCount(body).Extract();
      NoEntries(depth);
      EntriesDecodedWithin(n, tail, depth, []);
    } else {
      LeafDecoded(tag, body);
    }
  }

  lemma NoEntries(depth: nat)
    ensures AllEntriesWithin([], depth)
  {
  }

  lemma {:induction false} ItemsDecodedWithin(n: nat, b: Bytes, depth: nat)
    requires depth <= MAX_DEPTH && DecodeItems(n, b, depth).Ok?
    ensures AllWithin(DecodeItems(n, b, depth).value, depth)
    decreases MAX_DEPTH + 1 - depth, 0, n
  {
    if n == 0 {
      hide DecodeValue, Suffix, Within;
    } else {
      hide *;
      ItemsNext(n, b, depth);
      var first := DecodeValue(b, depth + 1);
      ItemsParts(first, n, depth);
      DecodedWithin(b, depth + 1);
      ItemsDecodedWithin(n - 1, first.rest, depth);
      ItemsAfterWithin(first, n, depth);
    }
  }

  lemma ItemsAfterWithin(first: Parsed<Value>, n: nat, depth: nat)
    requires n > 0 && depth <= MAX_DEPTH && first.Ok? && Within(first.value, MAX_DEPTH - (depth + 1))
    requires DecodeItems(n - 1, first.rest, depth).Ok? && AllWithin(DecodeItems(n - 1, first.rest, depth).value, depth)
    ensures ItemsAfter(first, n, depth).Ok? && AllWithin(ItemsAfter(first, n, depth).value, depth)
  {
    hide DecodeItems, Suffix, Within;
  }

  lemma {:induction false} PutWithin(d: seq<Entry<Value>>, key: Text, v: Value, depth: nat)
    requires Ascending(d) && AllEntriesWithin(d, depth) && Within(v, MAX_DEPTH - (depth + 1))
    ensures AllEntriesWithin(Put(d, key, v), depth)
  {
    hide Within, Less;
    if d != [] {
      AllEntriesWithinNext(d, depth);
      if !Less(key, d[0].key) && key != d[0].key {
        PutWithin(d[1..], key, v, depth);
      }
    }
  }

  lemma {:induction false} EntriesDecodedWithin(n: nat, b: Bytes, depth: nat, d: seq<Entry<Value>>)
    requires depth <= MAX_DEPTH && Ascending(d) && DecodeEntries(n, b, depth, d).Ok? && AllEntriesWithin(d, depth)
    ensures AllEntriesWithin(DecodeEntries(n, b, depth, d).value, depth)
    decreases MAX_DEPTH + 1 - depth, 0, n
  {
    hide DecodeValue, ReadText, Put, Less, Suffix, Within, AllEntriesWithin;
    if n > 0 {
      EntriesRead(n, b, depth, d);
      var key := ReadText(b);
      EntriesParts(key, n, depth, d);
      var first := DecodeValue(key.rest, depth + 1);
      DecodedWithin(key.rest, depth + 1);
      PutWithin(d, key.value, first.value, depth);
      EntriesDecodedWithin(n - 1, first.rest, depth, Put(d, key.value, first.value));
    }
  }
}
