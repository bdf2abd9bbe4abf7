/** The index entries kept beside a collection, and the hex form a condition is named by. */
module Blobs {
  import opened Basics
  import opened Varint
  import opened Wire
  import opened Values
  import opened Expressions

  // -- index entries -------------------------------------------------------

  /** A key and the ids filed under it. */
  datatype Group = Group(key: Value, ids: Few<u64>)

  function EncodeIds(ids: seq<u64>): (b: Bytes)
    ensures |b| == 8 * |ids|
  {
    if ids == [] then [] else LowBytes(ids[0], 8) + EncodeIds(ids[1..])
  }

  function EncodeGroup(g: Group): (b: Bytes)
    ensures b != []
  {
    EncodeValue(g.key) + (LowBytes(|g.ids|, 8) + EncodeIds(g.ids))
  }

  function EncodeGroups(gs: seq<Group>): Bytes {
    if gs == [] then [] else EncodeGroup(gs[0]) + EncodeGroups(gs[1..])
  }

  function EncodeIndex(gs: Few<Group>): Bytes {
    LowBytes(|gs|, 8) + EncodeGroups(gs)
  }

  function ReadIds(n: nat, b: Bytes): (r: Parsed<seq<u64>>)
    ensures r.Ok? ==> |r.value| == n
  {
    if n == 0 then Ok([], b)
    else
      var (id, tail) :- ReadU64(b);
      var (ids, rest) :- ReadIds(n - 1, tail);
      Ok([id] + ids, rest)
  }

  function ReadGroup(b: Bytes): Parsed<Group> {
    var (key, mid) :- DecodeValue(b, 0);
    var (n, tail) :- ReadU64(mid);
    var (ids, rest) :- ReadIds(n, tail);
    Ok(Group(key, ids), rest)
  }

  function ReadGroups(n: nat, b: Bytes): (r: Parsed<seq<Group>>)
    ensures r.Ok? ==> |r.value| == n
  {
    if n == 0 then Ok([], b)
    else
      var (g, tail) :- ReadGroup(b);
      var (gs, rest) :- ReadGroups(n - 1, tail);
      Ok([g] + gs, rest)
  }

  function ReadIndex(b: Bytes): (r: Parsed<seq<Group>>)
    ensures r.Ok? ==> |r.value| < TWO64
  {
    var (n, body) :- ReadU64(b);
    ReadGroups(n, body)
  }

  /** The whole blob or nothing: bytes left over give up on it too. */
  function DecodeIndex(b: Bytes): Option<Few<Group>> {
    match ReadIndex(b)
    case Bad => None
    case Ok(gs, rest) => if rest == [] then Some(gs) else None
  }

  predicate KeysReadable(gs: seq<Group>) {
    forall i | 0 <= i < |gs| :: Within(gs[i].key, MAX_DEPTH)
  }

  lemma {:induction false} IdsRoundTrip(ids: seq<u64>, suffix: Bytes)
    ensures ReadIds(|ids|, EncodeIds(ids) + suffix) == Ok(ids, suffix)
  {
    hide LowBytes, ReadLe, ReadU64, Suffix;
    if ids == [] {
      assert EncodeIds(ids) + suffix == suffix;
    } else {
      var tail := EncodeIds(ids[1..]) + suffix;
      assert EncodeIds(ids) + suffix == LowBytes(ids[0], 8) + tail;
      ReadU64Of(ids[0], tail);
      IdsRoundTrip(ids[1..], suffix);
      assert ids == [ids[0]] + ids[1..];
    }
  }

  lemma GroupRoundTrip(g: Group, suffix: Bytes)
    ensures ReadGroup(EncodeGroup(g) + suffix) == Expected(Within(g.key, MAX_DEPTH), g, suffix)
  {
    hide EncodeValue, DecodeValue, LowBytes, ReadU64, EncodeIds, ReadIds, Within, Suffix;
    var tail := EncodeIds(g.ids) + suffix;
    var mid := LowBytes(|g.ids|, 8) + tail;
    assert EncodeGroup(g) + suffix == EncodeValue(g.key) + mid;
    ValueRoundTrip(g.key, mid, 0);
    ReadU64Of(|g.ids|, tail);
    IdsRoundTrip(g.ids, suffix);
  }

  lemma KeysReadableNext(gs: seq<Group>)
    requires gs != []
    ensures KeysReadable(gs) <==> Within(gs[0].key, MAX_DEPTH) && KeysReadable(gs[1..])
  {
    hide Within;
    assert gs == [gs[0]] + gs[1..];
    assert forall i | 0 <= i < |gs| - 1 :: gs[1..][i] == gs[i + 1];
  }

  lemma {:induction false} GroupsRoundTrip(gs: seq<Group>, suffix: Bytes)
    ensures ReadGroups(|gs|, EncodeGroups(gs) + suffix) == Expected(KeysReadable(gs), gs, suffix)
  {
    hide EncodeGroup, ReadGroup, Within;
    if gs == [] {
      assert EncodeGroups(gs) + suffix == suffix;
    } else {
      var tail := EncodeGroups(gs[1..]) + suffix;
      assert EncodeGroups(gs) + suffix == EncodeGroup(gs[0]) + tail;
      assert gs == [gs[0]] + gs[1..];
      KeysReadableNext(gs);
      hide KeysReadable;
      GroupRoundTrip(gs[0], tail);
      GroupsRoundTrip(gs[1..], suffix);
    }
  }

  lemma IndexRoundTrip(gs: Few<Group>, extra: Bytes)
    ensures ReadIndex(EncodeIndex(gs) + extra) == Expected(KeysReadable(gs), gs, extra)
  {
    hide LowBytes, ReadU64, EncodeGroups, ReadGroups, KeysReadable, Suffix;
    assert EncodeIndex(gs) + extra == LowBytes(|gs|, 8) + (EncodeGroups(gs) + extra);
    ReadU64Of(|gs|, EncodeGroups(gs) + extra);
    GroupsRoundTrip(gs, extra);
  }

  /** A blob gives back the entries it was made from exactly when every key is readable, and never with bytes after it. */
  lemma IndexReadsBack(gs: Few<Group>, extra: Bytes)
    ensures DecodeIndex(EncodeIndex(gs) + extra) == (if KeysReadable(gs) && extra == [] then Some(gs) else None)
  {
    hide EncodeIndex, ReadIndex, KeysReadable;
    IndexRoundTrip(gs, extra);
  }

  // -- a cut blob ----------------------------------------------------------

  lemma U64Followed(b: Bytes, suffix: Bytes)
    requires ReadU64(b).Ok?
    ensures ReadU64(b + suffix) == ReadU64(b).Followed(suffix)
  {
    hide ReadLe, Suffix;
    ReadLeFollowed(b, 8, suffix);
  }

  lemma {:induction false} IdsFollowed(n: nat, b: Bytes, suffix: Bytes)
    requires ReadIds(n, b).Ok?
    ensures ReadIds(n, b + suffix) == ReadIds(n, b).Followed(suffix)
  {
    hide ReadU64, Suffix;
    if n > 0 {
      U64Followed(b, suffix);
      IdsFollowed(n - 1, ReadU64(b).rest, suffix);
    }
  }

  lemma GroupFollowed(b: Bytes, suffix: Bytes)
    requires ReadGroup(b).Ok?
    ensures ReadGroup(b + suffix) == ReadGroup(b).Followed(suffix)
  {
    hide DecodeValue, ReadU64, ReadIds, Suffix;
    ValueFollowed(b, suffix, 0);
    var key := DecodeValue(b, 0);
    U64Followed(key.rest, suffix);
    var n := ReadU64(key.rest);
    IdsFollowed(n.value, n.rest, suffix);
  }

  lemma {:induction false} GroupsFollowed(n: nat, b: Bytes, suffix: Bytes)
    requires ReadGroups(n, b).Ok?
    ensures ReadGroups(n, b + suffix) == ReadGroups(n, b).Followed(suffix)
  {
    hide ReadGroup;
    if n > 0 {
      GroupFollowed(b, suffix);
      GroupsFollowed(n - 1, ReadGroup(b).rest, suffix);
    }
  }

  lemma IndexFollowed(b: Bytes, suffix: Bytes)
    requires ReadIndex(b).Ok?
    ensures ReadIndex(b + suffix) == ReadIndex(b).Followed(suffix)
  {
    hide ReadU64, ReadGroups, Suffix;
    U64Followed(b, suffix);
    var n := ReadU64(b);
    GroupsFollowed(n.value, n.rest, suffix);
  }

  /** A blob cut short is never taken for a smaller index. */
  lemma CutIndexRefused(gs: Few<Group>, part: Bytes, missing: Bytes)
    requires EncodeIndex(gs) == part + missing && missing != []
    ensures DecodeIndex(part) == None
  {
    hide EncodeIndex, ReadIndex, KeysReadable;
    assert EncodeIndex(gs) + [] == EncodeIndex(gs);
    IndexRoundTrip(gs, []);
    if ReadIndex(part).Ok? {
      IndexFollowed(part, missing);
    }
  }

  // -- the loops -----------------------------------------------------------

  lemma IdsAt(ids: seq<u64>, i: nat)
    requires i < |ids|
    ensures EncodeIds(ids[i..]) == LowBytes(ids[i], 8) + EncodeIds(ids[i + 1..])
  {
    assert ids[i..][1..] == ids[i + 1..];
  }

  lemma GroupsAt(gs: seq<Group>, i: nat)
    requires i < |gs|
    ensures EncodeGroups(gs[i..]) == EncodeGroup(gs[i]) + EncodeGroups(gs[i + 1..])
  {
    hide EncodeGroup;
    assert gs[i..][1..] == gs[i + 1..];
  }

  method WriteIndex(gs: Few<Group>) returns (out: Bytes)
    ensures out == EncodeIndex(gs)
  {
    hide EncodeGroup, EncodeGroups;
    out := LowBytes(|gs|, 8);
    assert gs[0..] == gs;
    for i := 0 to |gs|
      invariant out + EncodeGroups(gs[i..]) == EncodeIndex(gs)
    {
      GroupsAt(gs, i);
      out := AppendGroup(gs[i], out);
    }
    NoGroups(gs);
  }

  lemma NoGroups(gs: seq<Group>)
    ensures EncodeGroups(gs[|gs|..]) == []
  {
  }

  method AppendGroup(g: Group, out: Bytes) returns (out': Bytes)
    ensures out' == out + EncodeGroup(g)
  {
    hide EncodeIds, EncodeValue, LowBytes;
    out' := out + EncodeValue(g.key) + LowBytes(|g.ids|, 8);
    assert g.ids[0..] == g.ids;
    for i := 0 to |g.ids|
      invariant out' + EncodeIds(g.ids[i..]) == out + EncodeGroup(g)
    {
      IdsAt(g.ids, i);
      out' := out' + LowBytes(g.ids[i], 8);
    }
    NoIds(g.ids);
  }

  lemma NoIds(ids: seq<u64>)
    ensures EncodeIds(ids[|ids|..]) == []
  {
  }

  /** What was read so far, and then the rest if it reads. */
  function Behind<T>(front: seq<T>, tail: Parsed<seq<T>>): Parsed<seq<T>> {
    match tail case Bad => Bad case Ok(xs, rest) => Ok(front + xs, rest)
  }

  lemma NothingBehind<T>(tail: Parsed<seq<T>>, front: seq<T>, b: Bytes)
    ensures Behind([], tail) == tail && Behind(front, Ok([], b)) == Ok(front, b)
  {
    if tail.Ok? {
      assert [] + tail.value == tail.value;
    }
    assert front + [] == front;
  }

  lemma IdsStep(front: seq<u64>, n: nat, b: Bytes)
    requires n > 0
    ensures Behind(front, ReadIds(n, b)) ==
      if ReadU64(b).Bad? then Bad else Behind(front + [ReadU64(b).value], ReadIds(n - 1, ReadU64(b).rest))
  {
    hide ReadU64;
    if ReadU64(b).Ok? && ReadIds(n - 1, ReadU64(b).rest).Ok? {
      var ids := ReadIds(n - 1, ReadU64(b).rest).value;
      assert front + ([ReadU64(b).value] + ids) == front + [ReadU64(b).value] + ids;
    }
  }

  lemma GroupsStep(front: seq<Group>, n: nat, b: Bytes)
    requires n > 0
    ensures Behind(front, ReadGroups(n, b)) ==
      if ReadGroup(b).Bad? then Bad else Behind(front + [ReadGroup(b).value], ReadGroups(n - 1, ReadGroup(b).rest))
  {
    hide ReadGroup;
    if ReadGroup(b).Ok? && ReadGroups(n - 1, ReadGroup(b).rest).Ok? {
      var gs := ReadGroups(n - 1, ReadGroup(b).rest).value;
      assert front + ([ReadGroup(b).value] + gs) == front + [ReadGroup(b).value] + gs;
    }
  }

  method DecodeIds(n: nat, b: Bytes) returns (r: Parsed<seq<u64>>)
    ensures r == ReadIds(n, b)
  {
    hide ReadIds, ReadU64, Behind;
    var ids: seq<u64> := [];
    var left := b;
    NothingBehind(ReadIds(n, b), [], b);
    for i := 0 to n
      invariant ReadIds(n, b) == Behind(ids, ReadIds(n - i, left))
    {
      IdsStep(ids, n - i, left);
      var id := ReadU64(left);
      if id.Bad? {
        return Bad;
      }
      ids, left := ids + [id.value], id.rest;
    }
    NothingBehind(ReadIds(n, b), ids, left);
    NoneRead(left);
    r := Ok(ids, left);
  }

  lemma NoneRead(b: Bytes)
    ensures ReadIds(0, b) == Ok([], b) && ReadGroups(0, b) == Ok([], b)
  {
  }

  method DecodeGroup(b: Bytes) returns (r: Parsed<Group>)
    ensures r == ReadGroup(b)
  {
    hide DecodeValue, ReadU64, ReadIds;
    var key := DecodeValue(b, 0);
    if key.Bad? {
      return Bad;
    }
    var count := ReadU64(key.rest);
    if count.Bad? {
      return Bad;
    }
    var ids := DecodeIds(count.value, count.rest);
    r := if ids.Bad? then Bad else Ok(Group(key.value, ids.value), ids.rest);
  }

  method DecodeGroups(n: u64, b: Bytes) returns (r: Parsed<seq<Group>>)
    ensures r == ReadGroups(n, b)
  {
    hide ReadGroup, ReadGroups, Behind;
    var gs: seq<Group> := [];
    var left := b;
    NothingBehind(ReadGroups(n, b), [], b);
    for i := 0 to n
      invariant ReadGroups(n, b) == Behind(gs, ReadGroups(n - i, left))
    {
      GroupsStep(gs, n - i, left);
      var g := DecodeGroup(left);
      if g.Bad? {
        return Bad;
      }
      gs, left := gs + [g.value], g.rest;
    }
    NothingBehind(ReadGroups(n, b), gs, left);
    NoneRead(left);
    r := Ok(gs, left);
  }

  /** The nested loops of the reader, giving up at the first thing that does not decode. */
  method DecodeBlob(b: Bytes) returns (r: Option<Few<Group>>)
    ensures r == DecodeIndex(b)
  {
    hide ReadU64, ReadGroups;
    var n := ReadU64(b);
    if n.Bad? {
      return None;
    }
    var gs := DecodeGroups(n.value, n.rest);
    r := if gs.Ok? && gs.rest == [] then Some(gs.value) else None;
  }

  // -- hex -----------------------------------------------------------------

  function Digit(n: nat): byte
    requires n < 16
  {
    if n < 10 then 0x30 + n else 0x61 + n - 10
  }

  /** Either letter case is a digit. */
  function FromDigit(c: byte): Option<nat> {
    if 0x30 <= c <= 0x39 then Some(c - 0x30)
    else if 0x61 <= c <= 0x66 then Some(c - 0x61 + 10)
    else if 0x41 <= c <= 0x46 then Some(c - 0x41 + 10)
    else None
  }

  function ToHex(b: Bytes): (r: Bytes)
    ensures |r| == 2 * |b|
  {
    if b == [] then [] else [Digit(b[0] / 16), Digit(b[0] % 16)] + ToHex(b[1..])
  }

  function FromHex(s: Bytes): Option<Bytes> {
    if s == [] then Some([])
    else if |s| == 1 || FromDigit(s[0]) == None || FromDigit(s[1]) == None then None
    else
      match FromHex(s[2..])
      case None => None
      case Some(rest) => Some([(FromDigit(s[0]).value * 16 + FromDigit(s[1]).value) % 256] + rest)
  }

  lemma DigitRoundTrip(n: nat)
    requires n < 16
    ensures FromDigit(Digit(n)) == Some(n)
  {
  }

  lemma HexPair(hi: byte, lo: byte, rest: Bytes)
    requires FromDigit(hi).Some? && FromDigit(lo).Some?
    ensures FromHex([hi, lo] + rest) ==
      match FromHex(rest) { case None => None case Some(b) => Some([(FromDigit(hi).value * 16 + FromDigit(lo).value) % 256] + b) }
  {
    hide FromDigit;
    assert ([hi, lo] + rest)[2..] == rest;
  }

  lemma {:induction false} HexRoundTrip(b: Bytes)
    ensures FromHex(ToHex(b)) == Some(b)
  {
    if b != [] {
      var hi, lo := b[0] / 16, b[0] % 16;
      assert b == [b[0]] + b[1..];
      assert ToHex(b) == [Digit(hi), Digit(lo)] + ToHex(b[1..]);
      assert (hi * 16 + lo) % 256 == b[0];
      hide ToHex, FromHex, Digit, FromDigit;
      HexRoundTrip(b[1..]);
      DigitRoundTrip(hi);
      DigitRoundTrip(lo);
      HexPair(Digit(hi), Digit(lo), ToHex(b[1..]));
    }
  }

  function EncodeExprHex(e: Expr): Option<Bytes> {
    if Shallow(e, MAX_NODES) then Some(ToHex(EncodeExpr(e))) else None
  }

  function DecodeExprHex(s: Bytes): Option<Expr> {
    match FromHex(s) case None => None case Some(b) => DecodeExpr(b)
  }

  /** A condition written as hex, when it is shallow enough to be written, reads back exactly when its literals do. */
  lemma HexReadsBack(e: Expr)
    ensures EncodeExprHex(e).Some? <==> Shallow(e, MAX_NODES)
    ensures EncodeExprHex(e).Some? ==> DecodeExprHex(EncodeExprHex(e).value) == if Literals(e) then Some(e) else None
  {
    hide EncodeExpr, DecodeExpr, ToHex, FromHex, Shallow, Literals;
    HexRoundTrip(EncodeExpr(e));
    assert EncodeExpr(e) + [] == EncodeExpr(e);
    DecodeWhole(e, []);
  }

  lemma HexAt(s: Bytes, i: nat)
    requires i + 1 < |s|
    ensures FromHex(s[i..]) ==
      if FromDigit(s[i]) == None || FromDigit(s[i + 1]) == None || FromHex(s[i + 2..]) == None then None
      else Some([(FromDigit(s[i]).value * 16 + FromDigit(s[i + 1]).value) % 256] + FromHex(s[i + 2..]).value)
  {
    assert s[i..][2..] == s[i + 2..];
  }

  lemma {:induction false} OddHex(s: Bytes)
    requires |s| % 2 == 1
    ensures FromHex(s) == None
  {
    if |s| > 1 {
      OddHex(s[2..]);
    }
  }

  /** Bytes already read, and then the rest if it reads. */
  function After(front: Bytes, tail: Option<Bytes>): Option<Bytes> {
    match tail case None => None case Some(rest) => Some(front + rest)
  }

  lemma HexStep(front: Bytes, s: Bytes, i: nat)
    requires i + 1 < |s|
    ensures After(front, FromHex(s[i..])) ==
      if FromDigit(s[i]) == None || FromDigit(s[i + 1]) == None then None
      else After(front + [(FromDigit(s[i]).value * 16 + FromDigit(s[i + 1]).value) % 256], FromHex(s[i + 2..]))
  {
    HexAt(s, i);
    hide FromHex, FromDigit;
    if FromDigit(s[i]).Some? && FromDigit(s[i + 1]).Some? && FromHex(s[i + 2..]).Some? {
      var b: Bytes := [(FromDigit(s[i]).value * 16 + FromDigit(s[i + 1]).value) % 256];
      assert front + (b + FromHex(s[i + 2..]).value) == front + b + FromHex(s[i + 2..]).value;
    }
  }

  lemma HexEnds(front: Bytes, s: Bytes)
    ensures s[0..] == s && After([], FromHex(s)) == FromHex(s)
    ensures After(front, FromHex(s[|s|..])) == Some(front)
  {
    assert front + [] == front;
    if FromHex(s).Some? {
      assert [] + FromHex(s).value == FromHex(s).value;
    }
  }

  method BytesFromHex(s: Bytes) returns (r: Option<Bytes>)
    ensures r == FromHex(s)
  {
    hide FromHex, After;
    if |s| % 2 != 0 {
      OddHex(s);
      return None;
    }
    var bytes: Bytes := [];
    var i := 0;
    HexEnds([], s);
    while i < |s|
      invariant 0 <= i <= |s| && i % 2 == 0
      invariant FromHex(s) == After(bytes, FromHex(s[i..]))
    {
      HexStep(bytes, s, i);
      var hi, lo := FromDigit(s[i]), FromDigit(s[i + 1]);
      if hi == None || lo == None {
        return None;
      }
      bytes, i := bytes + [(hi.value * 16 + lo.value) % 256], i + 2;
    }
    HexEnds(bytes, s);
    r := Some(bytes);
  }
}
