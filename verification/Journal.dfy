/**
 * The coordinator's journal file: a header and entries end to end, with no
 * framing of their own. It must load as written, whole or torn.
 */
module Journal {
  import opened Basics
  import opened Varint
  import opened Wire
  import opened Values

  type Fields = Dict<Value>

  /** One write of a multi-shard transaction; no record deletes. */
  datatype Write = Write(coll: Text, id: u64, record: Option<Fields>)

  // -- one entry -----------------------------------------------------------

  /** A length as the entry stores it: `len() as u32`. */
  function Len32(n: nat): Bytes {
    LowBytes(n % TWO32, 4)
  }

  function EncodeName(t: Text): Bytes {
    Len32(|t|) + t
  }

  function EncodeFields(d: seq<Entry<Value>>): (b: Bytes)
    ensures |b| >= |d|
  {
    if d == [] then [] else EncodeName(d[0].key) + (EncodeValue(d[0].value) + EncodeFields(d[1..]))
  }

  function EncodeBody(r: Option<Fields>): Bytes {
    match r
    case None => [0]
    case Some(d) => [1] + (Len32(|d|) + EncodeFields(d))
  }

  function EncodeWrite(w: Write): (b: Bytes)
    ensures b != []
  {
    EncodeName(w.coll) + (LowBytes(w.id, 8) + EncodeBody(w.record))
  }

  function ReadName(b: Bytes): (r: Parsed<Text>)
    ensures r.Ok? ==> |r.rest| < |b| && |r.value| < TWO32
  {
    var (n, body) :- ReadU32(b);
    var (raw, rest) :- Take(body, n);
    if ValidUtf8(raw) then Ok(raw, rest) else Bad
  }

  function ReadFields(n: nat, b: Bytes, d: seq<Entry<Value>>): (r: Parsed<seq<Entry<Value>>>)
    requires Ascending(d)
    ensures r.Ok? ==> Ascending(r.value) && |r.value| <= |d| + n && |r.rest| <= |b|
    decreases n
  {
    if n == 0 then Ok(d, b)
    else
      var (key, mid) :- ReadName(b);
      var (v, tail) :- DecodeValue(mid, 0);
      ReadFields(n - 1, tail, Put(d, key, v))
  }

  function ReadBody(b: Bytes): (r: Parsed<Option<Fields>>)
    ensures r.Ok? ==> |r.rest| < |b|
  {
    var (kind, body) :- ReadByte(b);
    if kind == 0 then Ok(None, body)
    else if kind == 1 then
      var (n, tail) :- ReadU32(body);
      var (d, rest) :- ReadFields(n, tail, []);
      Ok(Some(d), rest)
    else Bad
  }

  function ReadWrite(b: Bytes): (r: Parsed<Write>)
    ensures r.Ok? ==> |r.rest| < |b|
  {
    var (coll, body) :- ReadName(b);
    var (id, tail) :- ReadU64(body);
    var (record, rest) :- ReadBody(tail);
    Ok(Write(coll, id, record), rest)
  }

  // -- the file ------------------------------------------------------------

  /** `XSH1`. */
  const MAGIC: Bytes := [0x58, 0x53, 0x48, 0x31]

  function EncodeWrites(ws: seq<Write>): Bytes {
    if ws == [] then [] else EncodeWrite(ws[0]) + EncodeWrites(ws[1..])
  }

  function JournalBytes(ws: seq<Write>): Bytes {
    MAGIC + EncodeWrites(ws)
  }

  /** Entries up to the first that does not read. */
  function ReadWrites(b: Bytes): seq<Write>
    decreases |b|
  {
    if b == [] then []
    else
      match ReadWrite(b)
      case Bad => []
      case Ok(w, rest) => [w] + ReadWrites(rest)
  }

  /** What opening finds in the file: nothing in an empty one, an error under another header. */
  function Load(raw: Bytes): Option<seq<Write>> {
    if raw == [] then Some([])
    else if |raw| < 4 || raw[..4] != MAGIC then None
    else Some(ReadWrites(raw[4..]))
  }

  // -- one entry reads back ------------------------------------------------

  /** The lengths an entry can record, and values the reader accepts. */
  predicate FieldsFit(d: seq<Entry<Value>>) {
    forall i | 0 <= i < |d| :: |d[i].key| < TWO32 && Within(d[i].value, MAX_DEPTH)
  }

  predicate Writable(w: Write) {
    && |w.coll| < TWO32
    && (w.record.Some? ==> |w.record.value| < TWO32 && FieldsFit(w.record.value))
  }

  lemma ReadU32Of(n: nat, suffix: Bytes)
    requires n < TWO32
    ensures ReadU32(Len32(n) + suffix) == Ok(n, suffix)
  {
    hide LowBytes, ReadLe, Suffix;
    Widths();
    ReadLeOf(n, 4, suffix);
  }

  lemma ReadNameOf(t: Text, suffix: Bytes)
    requires |t| < TWO32
    ensures ReadName(EncodeName(t) + suffix) == Ok(t, suffix)
  {
    hide Len32, ReadU32, Suffix, ValidUtf8;
    assert EncodeName(t) + suffix == Len32(|t|) + (t + suffix);
    ReadU32Of(|t|, t + suffix);
    TakeWhole(t, suffix);
  }

  lemma FieldsFitNext(d: seq<Entry<Value>>)
    requires d != []
    ensures FieldsFit(d) <==> |d[0].key| < TWO32 && Within(d[0].value, MAX_DEPTH) && FieldsFit(d[1..])
  {
    hide Within;
    assert d == [d[0]] + d[1..];
    assert forall i | 0 <= i < |d| - 1 :: d[1..][i] == d[i + 1];
  }

  lemma FieldsLayout(done: seq<Entry<Value>>, d: seq<Entry<Value>>, suffix: Bytes)
    requires Ascending(done + d) && d != []
    ensures EncodeFields(d) + suffix == EncodeName(d[0].key) + (EncodeValue(d[0].value) + (EncodeFields(d[1..]) + suffix))
    ensures Ascending(done) && Ascending(done + [d[0]] + d[1..]) && done + [d[0]] + d[1..] == done + d
    ensures Put(done, d[0].key, d[0].value) == done + [d[0]]
  {
    hide EncodeName, EncodeValue, Put, Less;
    assert done + d == done + [d[0]] + d[1..];
    AscendingFront(done, d);
    AscendingFront(done + [d[0]], d[1..]);
    PutLast(done, d[0]);
  }

  /** One field read into the map. */
  lemma FieldReads(n: nat, e: Entry<Value>, tail: Bytes, d: seq<Entry<Value>>)
    requires n > 0 && Ascending(d) && |e.key| < TWO32 && Within(e.value, MAX_DEPTH)
    ensures ReadFields(n, EncodeName(e.key) + (EncodeValue(e.value) + tail), d) == ReadFields(n - 1, tail, Put(d, e.key, e.value))
  {
    hide EncodeName, ReadName, EncodeValue, DecodeValue, Put, Less, Within, Suffix;
    ReadNameOf(e.key, EncodeValue(e.value) + tail);
    ValueRoundTrip(e.value, tail, 0);
  }

  lemma {:induction false} FieldsRoundTrip(done: seq<Entry<Value>>, d: seq<Entry<Value>>, suffix: Bytes)
    requires Ascending(done + d) && FieldsFit(d)
    ensures Ascending(done)
    ensures ReadFields(|d|, EncodeFields(d) + suffix, done) == Ok(done + d, suffix)
    decreases |d|
  {
    AscendingFront(done, d);
    if d == [] {
      hide DecodeValue, ReadName, Put, Less;
      assert EncodeFields(d) + suffix == suffix && done + d == done;
    } else {
      hide *;
      FieldsLayout(done, d, suffix);
      FieldsFitNext(d);
      FieldReads(|d|, d[0], EncodeFields(d[1..]) + suffix, done);
      FieldsRoundTrip(done + [d[0]], d[1..], suffix);
    }
  }

  lemma BodyRoundTrip(r: Option<Fields>, suffix: Bytes)
    requires r.Some? ==> |r.value| < TWO32 && FieldsFit(r.value)
    ensures ReadBody(EncodeBody(r) + suffix) == Ok(r, suffix)
  {
    hide Len32, ReadU32, ReadFields, EncodeFields, Suffix, FieldsFit, Less;
    if r.Some? {
      var tail := EncodeFields(r.value) + suffix;
      assert EncodeBody(r) + suffix == [1] + (Len32(|r.value|) + tail);
      assert ([1] + (Len32(|r.value|) + tail))[1..] == Len32(|r.value|) + tail;
      ReadU32Of(|r.value|, tail);
      assert [] + r.value == r.value;
      FieldsRoundTrip([], r.value, suffix);
    } else {
      assert ([0] + suffix)[1..] == suffix;
    }
  }

  lemma WriteRoundTrip(w: Write, suffix: Bytes)
    requires Writable(w)
    ensures ReadWrite(EncodeWrite(w) + suffix) == Ok(w, suffix)
  {
    hide EncodeName, ReadName, LowBytes, ReadU64, EncodeBody, ReadBody, Suffix, FieldsFit;
    var body := EncodeBody(w.record) + suffix;
    var tail := LowBytes(w.id, 8) + body;
    assert EncodeWrite(w) + suffix == EncodeName(w.coll) + tail;
    ReadNameOf(w.coll, tail);
    ReadU64Of(w.id, body);
    BodyRoundTrip(w.record, suffix);
  }

  // -- what is read can be written -----------------------------------------

  lemma {:induction false} PutFits(d: seq<Entry<Value>>, key: Text, v: Value)
    requires Ascending(d) && FieldsFit(d) && |key| < TWO32 && Within(v, MAX_DEPTH)
    ensures FieldsFit(Put(d, key, v))
  {
    hide Within, Less, FieldsFit;
    var r := Put(d, key, v);
    FieldsFitNext(r);
    if d == [] {
      assert r[1..] == [] && FieldsFit([]) by { NoFields(); }
    } else {
      FieldsFitNext(d);
      if Less(key, d[0].key) {
        assert r[1..] == d;
      } else if key == d[0].key {
        assert r[1..] == d[1..];
      } else {
        PutFits(d[1..], key, v);
        assert r[1..] == Put(d[1..], key, v);
      }
    }
  }

  lemma NoFields()
    ensures FieldsFit([])
  {
  }

  lemma {:induction false} FieldsReadFit(n: nat, b: Bytes, d: seq<Entry<Value>>)
    requires Ascending(d) && FieldsFit(d) && ReadFields(n, b, d).Ok?
    ensures FieldsFit(ReadFields(n, b, d).value)
    decreases n
  {
    if n == 0 {
      hide ReadName, DecodeValue, Put, Less, Suffix, FieldsFit;
    } else {
      hide *;
      FieldsParts(n, b, d);
      var key := ReadName(b);
      var first := DecodeValue(key.rest, 0);
      DecodedWithin(key.rest, 0);
      PutFits(d, key.value, first.value);
      FieldsReadFit(n - 1, first.rest, Put(d, key.value, first.value));
    }
  }

  /** A field list that reads: its first field reads, and so does the rest. */
  lemma FieldsParts(n: nat, b: Bytes, d: seq<Entry<Value>>)
    requires n > 0 && Ascending(d) && ReadFields(n, b, d).Ok?
    ensures ReadName(b).Ok? && |ReadName(b).value| < TWO32 && DecodeValue(ReadName(b).rest, 0).Ok?
    ensures var first := DecodeValue(ReadName(b).rest, 0);
      ReadFields(n, b, d) == ReadFields(n - 1, first.rest, Put(d, ReadName(b).value, first.value))
  {
    hide ReadName, DecodeValue, Put, Less, Suffix;
  }

  /** The same, from the parts. */
  lemma FieldsJoin(n: nat, b: Bytes, d: seq<Entry<Value>>)
    requires n > 0 && Ascending(d) && ReadName(b).Ok? && DecodeValue(ReadName(b).rest, 0).Ok?
    ensures var first := DecodeValue(ReadName(b).rest, 0);
      ReadFields(n, b, d) == ReadFields(n - 1, first.rest, Put(d, ReadName(b).value, first.value))
  {
    hide ReadName, DecodeValue, Put, Less, Suffix;
  }

  /** Any entry that reads, from any bytes, can be written again and read back. */
  lemma ReadIsWritable(b: Bytes)
    requires ReadWrite(b).Ok?
    ensures Writable(ReadWrite(b).value)
  {
    hide ReadName, ReadU64, ReadU32, ReadFields, FieldsFit, Less, Suffix;
    var coll := ReadName(b);
    var id := ReadU64(coll.rest);
    var body := id.rest;
    if body[0] == 1 {
      var n := ReadU32(body[1..]);
      NoFields();
      FieldsReadFit(n.value, n.rest, []);
    }
  }

  /** An entry reads back as itself exactly when its lengths fit 32 bits and no value lies too deep. */
  lemma WriteReadsBack(w: Write, suffix: Bytes)
    ensures ReadWrite(EncodeWrite(w) + suffix) == Ok(w, suffix) <==> Writable(w)
  {
    hide ReadWrite, EncodeWrite, Writable;
    if Writable(w) {
      WriteRoundTrip(w, suffix);
    } else if ReadWrite(EncodeWrite(w) + suffix).Ok? {
      ReadIsWritable(EncodeWrite(w) + suffix);
    }
  }

  // -- bytes that follow change nothing ------------------------------------

  lemma NameFollowed(b: Bytes, suffix: Bytes)
    requires ReadName(b).Ok?
    ensures ReadName(b + suffix) == ReadName(b).Followed(suffix)
  {
    hide ReadLe, Suffix, ValidUtf8;
    ReadLeFollowed(b, 4, suffix);
    var (n, body) := ReadU32(b).Extract();
    TakeFollowed(body, n, suffix);
  }

  lemma {:induction false} FieldsFollowed(n: nat, b: Bytes, d: seq<Entry<Value>>, suffix: Bytes)
    requires Ascending(d) && ReadFields(n, b, d).Ok?
    ensures ReadFields(n, b + suffix, d) == ReadFields(n, b, d).Followed(suffix)
    decreases n
  {
    if n == 0 {
      hide ReadName, DecodeValue, Put, Less, Suffix;
    } else {
      hide *;
      FieldsParts(n, b, d);
      var key := ReadName(b);
      var first := DecodeValue(key.rest, 0);
      NameFollowed(b, suffix);
      FollowedParts(key, suffix);
      ValueFollowed(key.rest, suffix, 0);
      FollowedParts(first, suffix);
      FieldsJoin(n, b + suffix, d);
      FieldsFollowed(n - 1, first.rest, Put(d, key.value, first.value), suffix);
    }
  }

  lemma FollowedParts<T>(p: Parsed<T>, suffix: Bytes)
    requires p.Ok?
    ensures p.Followed(suffix) == Ok(p.value, p.rest + suffix)
  {
  }

  lemma BodyFollowed(b: Bytes, suffix: Bytes)
    requires ReadBody(b).Ok?
    ensures ReadBody(b + suffix) == ReadBody(b).Followed(suffix)
  {
    hide ReadLe, ReadFields, Less, Suffix;
    var body := b[1..];
    assert (b + suffix)[1..] == body + suffix;
    if b[0] == 1 {
      ReadLeFollowed(body, 4, suffix);
      var n := ReadU32(body);
      FieldsFollowed(n.value, n.rest, [], suffix);
    }
  }

  lemma WriteFollowed(b: Bytes, suffix: Bytes)
    requires ReadWrite(b).Ok?
    ensures ReadWrite(b + suffix) == ReadWrite(b).Followed(suffix)
  {
    hide ReadName, ReadLe, ReadBody, Suffix;
    NameFollowed(b, suffix);
    var coll := ReadName(b);
    ReadLeFollowed(coll.rest, 8, suffix);
    var id := ReadU64(coll.rest);
    BodyFollowed(id.rest, suffix);
  }

  /** No entry reads from part of another's bytes. */
  lemma PartOfWriteRefused(w: Write, part: Bytes, missing: Bytes)
    requires Writable(w) && EncodeWrite(w) == part + missing && missing != []
    ensures ReadWrite(part) == Bad
  {
    hide ReadWrite, EncodeWrite, Writable;
    assert EncodeWrite(w) + [] == EncodeWrite(w);
    WriteRoundTrip(w, []);
    if ReadWrite(part).Ok? {
      WriteFollowed(part, missing);
    }
  }

  // -- a torn journal ------------------------------------------------------

  predicate AllWritable(ws: seq<Write>) {
    forall w | w in ws :: Writable(w)
  }

  /** How many of the entries lie wholly in the first `n` bytes. */
  function Whole(ws: seq<Write>, n: nat): (k: nat)
    ensures k <= |ws|
  {
    if ws == [] || n < |EncodeWrite(ws[0])| then 0 else 1 + Whole(ws[1..], n - |EncodeWrite(ws[0])|)
  }

  /** That count, as the byte offsets of the entries give it. */
  lemma {:induction false} WholeExactly(ws: seq<Write>, n: nat)
    ensures var k := Whole(ws, n);
      |EncodeWrites(ws[..k])| <= n && (k < |ws| ==> n < |EncodeWrites(ws[..k + 1])|)
  {
    hide EncodeWrite;
    if ws != [] {
      var size := |EncodeWrite(ws[0])|;
      if n < size {
        assert ws[..1] == [ws[0]] && ws[..0] == [];
        assert EncodeWrites([ws[0]]) == EncodeWrite(ws[0]) + EncodeWrites([]);
      } else {
        var rest := ws[1..];
        WholeExactly(rest, n - size);
        var k := Whole(rest, n - size);
        assert ws[..k + 1][1..] == rest[..k];
        assert k < |rest| ==> ws[..k + 2][1..] == rest[..k + 1];
      }
    }
  }

  /** Cut anywhere, the journal reads back as exactly the entries wholly before the cut. */
  lemma {:induction false} TornReads(ws: seq<Write>, n: nat)
    requires AllWritable(ws) && n <= |EncodeWrites(ws)|
    ensures ReadWrites(EncodeWrites(ws)[..n]) == ws[..Whole(ws, n)]
    decreases |ws|
  {
    hide EncodeWrite, ReadWrite, Writable;
    var b := EncodeWrites(ws)[..n];
    if ws == [] {
      assert b == [];
    } else {
      var w, rest := ws[0], ws[1..];
      var head := EncodeWrite(w);
      assert EncodeWrites(ws) == head + EncodeWrites(rest);
      assert AllWritable(rest);
      if n < |head| {
        assert head == b + head[n..];
        PartOfWriteRefused(w, b, head[n..]);
      } else {
        var tail := EncodeWrites(rest)[..n - |head|];
        assert b == head + tail;
        WriteRoundTrip(w, tail);
        TornReads(rest, n - |head|);
        assert ws[..Whole(ws, n)] == [w] + rest[..Whole(rest, n - |head|)];
      }
    }
  }

  /** The same for the file with its header: a torn header is an error, and an empty file is no journal. */
  lemma TornJournalLoads(ws: seq<Write>, n: nat)
    requires AllWritable(ws) && n <= |JournalBytes(ws)|
    ensures n >= 4 ==> Load(JournalBytes(ws)[..n]) == Some(ws[..Whole(ws, n - 4)])
    ensures 0 < n < 4 ==> Load(JournalBytes(ws)[..n]) == None
    ensures n == 0 ==> Load(JournalBytes(ws)[..n]) == Some([])
  {
    hide EncodeWrites, ReadWrites, AllWritable, Whole;
    if n >= 4 {
      TornReads(ws, n - 4);
      var raw := JournalBytes(ws)[..n];
      assert raw[..4] == MAGIC && raw[4..] == EncodeWrites(ws)[..n - 4];
    }
  }

  lemma {:induction false} ReadsAreWritable(b: Bytes)
    ensures AllWritable(ReadWrites(b))
    decreases |b|
  {
    hide ReadWrite, Writable;
    if b != [] && ReadWrite(b).Ok? {
      ReadIsWritable(b);
      ReadsAreWritable(ReadWrite(b).rest);
    }
  }

  /** The whole file loads as the entries written to it exactly when each is one the format can hold. */
  lemma JournalLoads(ws: seq<Write>)
    ensures Load(JournalBytes(ws)) == Some(ws) <==> AllWritable(ws)
  {
    hide EncodeWrites, ReadWrites, AllWritable, Whole;
    var raw := JournalBytes(ws);
    assert raw[..4] == MAGIC && raw[4..] == EncodeWrites(ws);
    if AllWritable(ws) {
      assert raw[..|raw|] == raw;
      TornJournalLoads(ws, |raw|);
      WholeOfAll(ws);
      assert ws[..|ws|] == ws;
    } else {
      ReadsAreWritable(EncodeWrites(ws));
    }
  }

  lemma {:induction false} WholeOfAll(ws: seq<Write>)
    ensures Whole(ws, |EncodeWrites(ws)|) == |ws|
  {
    if ws != [] {
      WholeOfAll(ws[1..]);
    }
  }

  /** Whatever loads, however torn, loads again unchanged after being rewritten with more entries behind it. */
  lemma ReloadKeeps(raw: Bytes, more: seq<Write>)
    requires Load(raw).Some? && AllWritable(more)
    ensures Load(JournalBytes(Load(raw).value + more)) == Some(Load(raw).value + more)
  {
    hide ReadWrites, JournalBytes, Writable;
    var found := Load(raw).value;
    if raw != [] {
      ReadsAreWritable(raw[4..]);
    }
    assert AllWritable(found + more);
    JournalLoads(found + more);
  }

  // -- an entry that cannot be read ----------------------------------------

  /** Names and counts that fit, and some value nested too deep for the reader. */
  predicate TooDeep(w: Write) {
    && |w.coll| < TWO32 && w.record.Some? && |w.record.value| < TWO32
    && (forall i | 0 <= i < |w.record.value| :: |w.record.value[i].key| < TWO32)
    && !FieldsFit(w.record.value)
  }

  lemma DeepField(n: nat, e: Entry<Value>, tail: Bytes, d: seq<Entry<Value>>)
    requires n > 0 && Ascending(d) && |e.key| < TWO32 && !Within(e.value, MAX_DEPTH)
    ensures ReadFields(n, EncodeName(e.key) + (EncodeValue(e.value) + tail), d) == Bad
  {
    hide EncodeName, ReadName, EncodeValue, DecodeValue, Put, Less, Within, Suffix;
    ReadNameOf(e.key, EncodeValue(e.value) + tail);
    ValueRoundTrip(e.value, tail, 0);
  }

  /** Fields read until the first that lies too deep, and then not at all. */
  lemma {:induction false} DeepFieldsRefused(done: seq<Entry<Value>>, d: seq<Entry<Value>>, suffix: Bytes)
    requires Ascending(done + d) && !FieldsFit(d) && forall i | 0 <= i < |d| :: |d[i].key| < TWO32
    ensures Ascending(done)
    ensures ReadFields(|d|, EncodeFields(d) + suffix, done) == Bad
    decreases |d|
  {
    AscendingFront(done, d);
    hide *;
    if d == [] {
      NoFields();
    } else {
      FieldsLayout(done, d, suffix);
      FieldsFitNext(d);
      var tail := EncodeFields(d[1..]) + suffix;
      if Within(d[0].value, MAX_DEPTH) {
        FieldReads(|d|, d[0], tail, done);
        DeepFieldsRefused(done + [d[0]], d[1..], suffix);
      } else {
        DeepField(|d|, d[0], tail, done);
      }
    }
  }

  lemma DeepRefused(w: Write, suffix: Bytes)
    requires TooDeep(w)
    ensures ReadWrite(EncodeWrite(w) + suffix) == Bad && !Writable(w)
  {
    var d := w.record.value;
    var fields := EncodeFields(d) + suffix;
    var body := [1] + (Len32(|d|) + fields);
    DeepLayout(w, suffix);
    hide *;
    assert [] + d == d;
    DeepFieldsRefused([], d, suffix) by { NothingAscends(d); }
    DeepBody(|d|, fields);
    ReadNameOf(w.coll, LowBytes(w.id, 8) + body);
    ReadU64Of(w.id, body);
    BadBody(w.coll, w.id, body);
    Unwritable(w);
  }

  lemma Unwritable(w: Write)
    requires TooDeep(w)
    ensures !Writable(w)
  {
    hide FieldsFit;
  }

  lemma NothingAscends(d: Fields)
    ensures Ascending([] + d)
  {
    hide Less;
    assert [] + d == d;
  }

  lemma DeepLayout(w: Write, suffix: Bytes)
    requires TooDeep(w)
    ensures |w.coll| < TWO32 && w.record.Some? && |w.record.value| < TWO32 && !FieldsFit(w.record.value)
    ensures forall i | 0 <= i < |w.record.value| :: |w.record.value[i].key| < TWO32
    ensures EncodeWrite(w) + suffix ==
      EncodeName(w.coll) + (LowBytes(w.id, 8) + ([1] + (Len32(|w.record.value|) + (EncodeFields(w.record.value) + suffix))))
  {
    hide EncodeName, LowBytes, Len32, EncodeFields, FieldsFit, Less;
    var d := w.record.value;
    var body := EncodeBody(w.record);
    assert body == [1] + (Len32(|d|) + EncodeFields(d));
    assert body + suffix == [1] + (Len32(|d|) + (EncodeFields(d) + suffix));
  }

  lemma DeepBody(n: nat, fields: Bytes)
    requires n < TWO32 && ReadFields(n, fields, []) == Bad
    ensures ReadBody([1] + (Len32(n) + fields)) == Bad
  {
    hide Len32, ReadU32, ReadFields, Suffix, Less;
    var body := [1] + (Len32(n) + fields);
    assert body[1..] == Len32(n) + fields && body[0] == 1;
    ReadU32Of(n, fields);
  }

  lemma BadBody(coll: Text, id: u64, body: Bytes)
    requires ReadName(EncodeName(coll) + (LowBytes(id, 8) + body)) == Ok(coll, LowBytes(id, 8) + body)
    requires ReadU64(LowBytes(id, 8) + body) == Ok(id, body) && ReadBody(body) == Bad
    ensures ReadWrite(EncodeName(coll) + (LowBytes(id, 8) + body)) == Bad
  {
    hide EncodeName, ReadName, LowBytes, ReadU64, ReadBody, Suffix;
  }

  /** One such entry hides itself and everything behind it. */
  lemma {:induction false} CutAtDeep(ws: seq<Write>, i: nat)
    requires i < |ws| && AllWritable(ws[..i]) && TooDeep(ws[i])
    ensures ReadWrites(EncodeWrites(ws)) == ws[..i]
    decreases i
  {
    hide EncodeWrite, ReadWrite, Writable, TooDeep;
    var rest := ws[1..];
    assert EncodeWrites(ws) == EncodeWrite(ws[0]) + EncodeWrites(rest);
    if i == 0 {
      DeepRefused(ws[0], EncodeWrites(rest));
    } else {
      assert ws[..i][0] == ws[0] && ws[0] in ws[..i];
      assert rest[..i - 1] == ws[..i][1..];
      assert forall w | w in rest[..i - 1] :: w in ws[..i];
      WriteRoundTrip(ws[0], EncodeWrites(rest));
      CutAtDeep(rest, i - 1);
      assert ws[..i] == [ws[0]] + rest[..i - 1];
    }
  }

  lemma DeepJournalLoads(ws: seq<Write>, i: nat)
    requires i < |ws| && AllWritable(ws[..i]) && TooDeep(ws[i])
    ensures Load(JournalBytes(ws)) == Some(ws[..i])
  {
    hide EncodeWrites, ReadWrites, AllWritable, TooDeep;
    var raw := JournalBytes(ws);
    assert raw[..4] == MAGIC && raw[4..] == EncodeWrites(ws);
    CutAtDeep(ws, i);
  }

  // -- the loops -----------------------------------------------------------

  lemma FieldsAt(d: seq<Entry<Value>>, i: nat)
    requires i < |d|
    ensures EncodeFields(d[i..]) == EncodeName(d[i].key) + (EncodeValue(d[i].value) + EncodeFields(d[i + 1..]))
  {
    hide EncodeName, EncodeValue;
    assert d[i..][1..] == d[i + 1..];
  }

  lemma Joined(before: Bytes, a: Bytes, b: Bytes, c: Bytes)
    ensures before + a + b + c == before + (a + (b + c))
  {
  }

  /** Append one entry to a buffer. */
  method AppendWrite(w: Write, out: Bytes) returns (out': Bytes)
    ensures out' == out + EncodeWrite(w)
  {
    hide EncodeName, LowBytes, EncodeFields, EncodeValue, Less;
    out' := out + EncodeName(w.coll) + LowBytes(w.id, 8);
    match w.record
    case None =>
      out' := out' + [0];
      Joined(out, EncodeName(w.coll), LowBytes(w.id, 8), [0]);
    case Some(d) =>
      ghost var body := [1] + (Len32(|d|) + EncodeFields(d));
      Joined(out, EncodeName(w.coll), LowBytes(w.id, 8), body);
      ghost var start := out';
      out' := out' + [1] + Len32(|d|);
      Joined(start, [1], Len32(|d|), EncodeFields(d));
      out' := AppendFields(d, out');
  }

  method AppendFields(d: seq<Entry<Value>>, out: Bytes) returns (out': Bytes)
    ensures out' == out + EncodeFields(d)
  {
    hide EncodeName, EncodeValue, EncodeFields;
    out' := out;
    assert d[0..] == d;
    for i := 0 to |d|
      invariant out' + EncodeFields(d[i..]) == out + EncodeFields(d)
    {
      FieldsAt(d, i);
      Joined(out', EncodeName(d[i].key), EncodeValue(d[i].value), EncodeFields(d[i + 1..]));
      out' := out' + EncodeName(d[i].key) + EncodeValue(d[i].value);
    }
    NothingAfter(d);
  }

  lemma NothingAfter(d: seq<Entry<Value>>)
    ensures EncodeFields(d[|d|..]) == []
  {
  }

  lemma WritesAt(ws: seq<Write>, i: nat)
    requires i < |ws|
    ensures EncodeWrites(ws[i..]) == EncodeWrite(ws[i]) + EncodeWrites(ws[i + 1..])
  {
    hide EncodeWrite;
    assert ws[i..][1..] == ws[i + 1..];
  }

  /** The bytes a journal file is given in one call. */
  method WriteJournal(ws: seq<Write>) returns (bytes: Bytes)
    ensures bytes == JournalBytes(ws)
  {
    hide EncodeWrite;
    bytes := MAGIC;
    assert ws[0..] == ws;
    for i := 0 to |ws|
      invariant bytes + EncodeWrites(ws[i..]) == JournalBytes(ws)
    {
      WritesAt(ws, i);
      hide EncodeWrites;
      bytes := AppendWrite(ws[i], bytes);
    }
    assert ws[|ws|..] == [];
  }

  lemma ReadStep(done: seq<Write>, b: Bytes)
    ensures b != [] && ReadWrite(b).Ok? ==>
      done + ReadWrites(b) == done + [ReadWrite(b).value] + ReadWrites(ReadWrite(b).rest)
    ensures b == [] || ReadWrite(b).Bad? ==> done + ReadWrites(b) == done
  {
    hide ReadWrite;
  }

  method LoadJournal(raw: Bytes) returns (r: Option<seq<Write>>)
    ensures r == Load(raw)
  {
    if raw == [] {
      return Some([]);
    }
    if |raw| < 4 || raw[..4] != MAGIC {
      return None;
    }
    hide ReadWrite, ReadWrites;
    var out: seq<Write> := [];
    var left := raw[4..];
    while left != []
      invariant out + ReadWrites(left) == ReadWrites(raw[4..])
      decreases |left|
    {
      ReadStep(out, left);
      var entry := DecodeWrite(left);
      match entry
      case Ok(w, rest) =>
        out, left := out + [w], rest;
      case Bad =>
        break;
    }
    ReadStep(out, left);
    r := Some(out);
  }

  lemma FieldsOnce(n: nat, b: Bytes, d: seq<Entry<Value>>)
    requires Ascending(d)
    ensures n == 0 ==> ReadFields(n, b, d) == Ok(d, b)
    ensures n > 0 && (ReadName(b).Bad? || DecodeValue(ReadName(b).rest, 0).Bad?) ==> ReadFields(n, b, d) == Bad
  {
    hide ReadName, DecodeValue, Put, Less, Suffix;
  }

  /** The field loop of an entry: each field goes into the record as it is read. */
  method DecodeFields(n: nat, b: Bytes) returns (r: Parsed<seq<Entry<Value>>>)
    ensures r == ReadFields(n, b, [])
  {
    hide ReadFields, ReadName, DecodeValue, Less, Suffix;
    var d: seq<Entry<Value>> := [];
    var left := b;
    for i := 0 to n
      invariant Ascending(d)
      invariant ReadFields(n, b, []) == ReadFields(n - i, left, d)
    {
      FieldsOnce(n - i, left, d);
      var key := ReadName(left);
      if key.Bad? {
        return Bad;
      }
      var v := DecodeValue(key.rest, 0);
      if v.Bad? {
        return Bad;
      }
      FieldsJoin(n - i, left, d);
      d, left := Put(d, key.value, v.value), v.rest;
    }
    FieldsOnce(0, left, d);
    r := Ok(d, left);
  }

  method DecodeWrite(b: Bytes) returns (r: Parsed<Write>)
    ensures r == ReadWrite(b)
  {
    hide ReadName, ReadU64, ReadU32, ReadFields, Less, Suffix;
    var coll := ReadName(b);
    if coll.Bad? {
      return Bad;
    }
    var id := ReadU64(coll.rest);
    if id.Bad? || id.rest == [] {
      return Bad;
    }
    var kind, body := id.rest[0], id.rest[1..];
    if kind == 0 {
      return Ok(Write(coll.value, id.value, None), body);
    }
    if kind != 1 {
      return Bad;
    }
    var n := ReadU32(body);
    if n.Bad? {
      return Bad;
    }
    var d := DecodeFields(n.value, n.rest);
    r := if d.Bad? then Bad else Ok(Write(coll.value, id.value, Some(d.value)), d.rest);
  }
}
