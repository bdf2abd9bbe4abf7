/**
 * What the byte formats look like from outside: each form said byte by byte,
 * so that files written by any other program of the same format read alike.
 * That a writer and its reader agree is said where they are.
 */
module Formats {
  import opened Basics
  import opened Varint
  import opened Wire
  import opened Values
  import E = Expressions
  import J = Journal
  import B = Blobs
  import D = DeltaColumn

  // -- numbers -------------------------------------------------------------

  /** What groups of seven bits add up to, the lowest first. */
  function Sevens(b: Bytes): nat {
    if b == [] then 0 else b[0] % 128 + 128 * Sevens(b[1..])
  }

  /** Every byte but the last is marked as having another after it. */
  predicate Marked(b: Bytes) {
    b != [] && forall i | 0 <= i < |b| :: b[i] >= 128 <==> i < |b| - 1
  }

  /** The shortest groups that add up to `v`. */
  predicate IsVarint(b: Bytes, v: nat) {
    Marked(b) && Sevens(b) == v && (|b| > 1 ==> b[|b| - 1] > 0)
  }

  lemma {:induction false} VarintIs(v: nat)
    ensures IsVarint(Encode(v), v)
  {
    if v >= 128 {
      VarintIs(v / 128);
      var b, rest := Encode(v), Encode(v / 128);
      assert b == [v % 128 + 128] + rest && b[1..] == rest;
      assert forall i | 0 < i < |b| :: b[i] == rest[i - 1];
    }
  }

  lemma RoomShrinks(i: nat)
    requires i <= 9
    ensures if i < 9 then Room(i) == 128 * Room(i + 1) && Room(i) >= 256 else Room(i) == 2
  {
    if i < 9 { assert Pow128(9 - i) == 128 * Pow128(8 - i); }
  }

  lemma OneGroup(x: byte, rest: Bytes, i: nat)
    requires i <= 9 && x < 128
    ensures ReadGroups([x] + rest, i) == if x < Room(i) then Ok(x, rest) else Bad
  {
    RoomShrinks(i);
    if i < 9 || x <= 1 { GroupsLast(x, rest, i); }
  }

  lemma NextGroup(x: byte, tail: Bytes, i: nat)
    requires i <= 9 && x >= 128
    ensures ReadGroups([x] + tail, i) == if i < 9 then Shifted(ReadGroups(tail, i + 1), x - 128, 128) else Bad
  {
    if i < 9 { GroupsMore(x - 128, tail, i); }
  }

  /** The checked reader takes any groups, shortest or not, that are at most ten and add up to 64 bits. */
  lemma {:induction false} GroupsRead(g: Bytes, rest: Bytes, i: nat)
    requires i <= 9 && Marked(g)
    ensures ReadGroups(g + rest, i) == if |g| <= 10 - i && Sevens(g) < Room(i) then Ok(Sevens(g), rest) else Bad
    decreases |g|
  {
    hide ReadGroups, Room;
    var x, more := g[0], g[1..];
    assert g + rest == [x] + (more + rest);
    RoomShrinks(i);
    if |g| == 1 {
      assert Sevens(g) == x && more + rest == rest;
      OneGroup(x, rest, i);
    } else {
      NextGroup(x, more + rest, i);
      if i < 9 {
        assert forall k | 0 <= k < |more| :: more[k] == g[k + 1];
        GroupsRead(more, rest, i + 1);
        assert Sevens(g) == x - 128 + 128 * Sevens(more);
      }
    }
  }

  lemma VarintReads(g: Bytes, rest: Bytes)
    requires Marked(g)
    ensures ReadVarint(g + rest) == if |g| <= 10 && Sevens(g) < TWO64 then Ok(Sevens(g), rest) else Bad
  {
    GroupsRead(g, rest, 0);
    RoomWhole();
    hide ReadGroups;
  }

  lemma {:induction false} Endless(b: Bytes, i: nat)
    requires i <= 10 && forall k | 0 <= k < |b| :: b[k] >= 128
    ensures ReadGroups(b, i) == Bad
    decreases 10 - i
  {
    if b != [] && i < 10 { Endless(b[1..], i + 1); }
  }

  /** `k` bytes of `n`, the lowest first. */
  predicate IsWord(b: Bytes, n: nat, k: nat) {
    |b| == k && forall i | 0 <= i < k :: b[i] == n / Pow256(i) % 256
  }

  lemma {:induction false} WordIs(n: nat, k: nat)
    ensures IsWord(LowBytes(n, k), n, k)
  {
    if k > 0 {
      WordIs(n / 256, k - 1);
      var b, rest := LowBytes(n, k), LowBytes(n / 256, k - 1);
      forall i | 0 <= i < k ensures b[i] == n / Pow256(i) % 256 {
        if i > 0 {
          assert b[i] == rest[i - 1];
          Divides(n, Pow256(i - 1));
        }
      }
    }
  }

  lemma Divides(n: nat, p: nat)
    requires p > 0
    ensures n / 256 / p == n / (256 * p)
  {
    var d, m := 256 * p, n / 256;
    var q, x := m / p, n / d;
    assert n == 256 * m + n % 256 && m == p * q + m % p && n == d * x + n % d;
    assert 256 * (p * q) == d * q;
    assert d * (x - q) == 256 * (m % p) + n % 256 - n % d;
    Outgrows(d, x - q);
  }

  lemma Outgrows(d: int, y: int)
    requires d > 0
    ensures y >= 1 ==> d * y >= d
    ensures y <= -1 ==> d * y <= -d
  {
    if y >= 1 { assert d * y == d + d * (y - 1); }
    if y <= -1 { assert d * y == -d + d * (y + 1); }
  }

  /** Signed numbers go out with the small ones first: 0, -1, 1, -2, ... */
  lemma ZigzagIs(n: i64)
    ensures Zigzag(n) == if n >= 0 then 2 * n else -2 * n - 1
  {
    assert (2 * n) % TWO64 == if n >= 0 then 2 * n else 2 * n + TWO64;
  }

  // -- text ----------------------------------------------------------------

  /** A Unicode scalar value. */
  type Scalar = c: int | 0 <= c < 0xD800 || 0xE000 <= c < 0x11_0000

  /** One character in UTF-8, as RFC 3629 has it. */
  function Utf8(c: Scalar): (b: Bytes)
    ensures b != []
  {
    if c < 0x80 then [c]
    else if c < 0x800 then [0xC0 + c / 64, 0x80 + c % 64]
    else if c < 0x1_0000 then [0xE0 + c / 4096, 0x80 + c / 64 % 64, 0x80 + c % 64]
    else [0xF0 + c / 262144, 0x80 + c / 4096 % 64, 0x80 + c / 64 % 64, 0x80 + c % 64]
  }

  function Utf8All(cs: seq<Scalar>): Bytes {
    if cs == [] then [] else Utf8(cs[0]) + Utf8All(cs[1..])
  }

  /** Six bits at a time come apart as they went together. */
  lemma SixBits(x: nat, y: nat)
    requires y < 64
    ensures (64 * x + y) / 64 == x && (64 * x + y) % 64 == y
  {
  }

  lemma TwoBytes(x: nat, y: nat)
    requires 2 <= x < 32 && y < 64
    ensures Utf8(64 * x + y) == [0xC0 + x, 0x80 + y]
  {
    SixBits(x, y);
  }

  lemma ThreeBytes(x: nat, y: nat, z: nat)
    requires x < 16 && y < 64 && z < 64 && (x == 0 ==> y >= 32) && (x == 13 ==> y < 32)
    ensures Utf8(64 * (64 * x + y) + z) == [0xE0 + x, 0x80 + y, 0x80 + z]
  {
    SixBits(x, y);
    SixBits(64 * x + y, z);
    assert (64 * (64 * x + y) + z) / 4096 == x;
  }

  lemma FourBytes(w: nat, x: nat, y: nat, z: nat)
    requires w < 5 && x < 64 && y < 64 && z < 64 && (w == 0 ==> x >= 16) && (w == 4 ==> x < 16)
    ensures Utf8(64 * (64 * (64 * w + x) + y) + z) == [0xF0 + w, 0x80 + x, 0x80 + y, 0x80 + z]
  {
    SixBits(w, x);
    SixBits(64 * w + x, y);
    SixBits(64 * (64 * w + x) + y, z);
    var c := 64 * (64 * (64 * w + x) + y) + z;
    assert c / 4096 == 64 * w + x && c / 262144 == w;
  }

  /** The character at the head of bytes that have one. */
  lemma HeadScalar(b: Bytes) returns (c: Scalar)
    requires CharWidth(b) > 0
    ensures Utf8(c) == b[..CharWidth(b)]
  {
    var n, first: nat := CharWidth(b), b[0];
    if n == 1 {
      return b[0];
    }
    hide Utf8;
    var y: nat := b[1] - 0x80;
    if n == 2 {
      TwoBytes(first - 0xC0, y);
      c := 64 * (first - 0xC0) + y;
    } else if n == 3 {
      ThreeBytes(first - 0xE0, y, b[2] - 0x80);
      c := 64 * (64 * (first - 0xE0) + y) + (b[2] - 0x80);
    } else {
      FourBytes(first - 0xF0, y, b[2] - 0x80, b[3] - 0x80);
      c := 64 * (64 * (64 * (first - 0xF0) + y) + (b[2] - 0x80)) + (b[3] - 0x80);
    }
  }

  lemma ScalarWidth(c: Scalar, rest: Bytes)
    ensures CharWidth(Utf8(c) + rest) == |Utf8(c)|
  {
    var u, b := Utf8(c), Utf8(c) + rest;
    assert |b| == |u| + |rest| && forall i | 0 <= i < |u| :: b[i] == u[i];
    ScalarParts(c);
    hide Utf8;
  }

  /** What the bytes of a character range over: no overlong form, no surrogate, nothing past U+10FFFF. */
  lemma ScalarParts(c: Scalar)
    ensures var u := Utf8(c);
      && 1 <= |u| <= 4
      && (|u| == 1 ==> u[0] < 0x80)
      && (|u| == 2 ==> 0xC2 <= u[0] < 0xE0)
      && (|u| == 3 ==> 0xE0 <= u[0] < 0xF0 && (u[0] == 0xE0 ==> u[1] >= 0xA0) && (u[0] == 0xED ==> u[1] < 0xA0))
      && (|u| == 4 ==> 0xF0 <= u[0] < 0xF5 && (u[0] == 0xF0 ==> u[1] >= 0x90) && (u[0] == 0xF4 ==> u[1] < 0x90))
      && forall i | 1 <= i < |u| :: Continues(u[i])
  {
  }

  lemma ValidHead(b: Bytes)
    requires ValidUtf8(b) && b != []
    ensures CharWidth(b) > 0 && ValidUtf8(b[CharWidth(b)..])
  {
    hide CharWidth;
  }

  lemma AllNext(b: Bytes, n: nat, c: Scalar, cs: seq<Scalar>)
    requires n <= |b| && Utf8(c) == b[..n] && Utf8All(cs) == b[n..]
    ensures Utf8All([c] + cs) == b
  {
    hide Utf8;
    assert ([c] + cs)[1..] == cs && b == b[..n] + b[n..];
  }

  lemma {:induction false} Scalars(b: Bytes) returns (cs: seq<Scalar>)
    requires ValidUtf8(b)
    ensures b == Utf8All(cs)
    decreases |b|
  {
    if b == [] {
      cs := [];
    } else {
      hide *;
      ValidHead(b);
      var c := HeadScalar(b);
      var rest := Scalars(b[CharWidth(b)..]);
      AllNext(b, CharWidth(b), c, rest);
      cs := [c] + rest;
    }
  }

  lemma {:induction false} ScalarsValid(cs: seq<Scalar>)
    ensures ValidUtf8(Utf8All(cs))
  {
    if cs != [] {
      ScalarsValid(cs[1..]);
      ScalarWidth(cs[0], Utf8All(cs[1..]));
      var b := Utf8All(cs);
      assert b[|Utf8(cs[0])|..] == Utf8All(cs[1..]);
    }
  }

  /** The bytes taken for text are exactly those of some characters. */
  lemma TextExactly(b: Bytes)
    ensures ValidUtf8(b) <==> exists cs: seq<Scalar> :: b == Utf8All(cs)
  {
    if ValidUtf8(b) { var _ := Scalars(b); }
    forall cs: seq<Scalar> | b == Utf8All(cs) ensures ValidUtf8(b) { ScalarsValid(cs); }
  }

  // -- values --------------------------------------------------------------

  function Joined(parts: seq<Bytes>): Bytes {
    if parts == [] then [] else parts[0] + Joined(parts[1..])
  }

  /** A count, then what it counts. */
  ghost predicate Counted(b: Bytes, n: nat, body: Bytes) {
    exists k | 0 <= k <= |b| :: IsVarint(b[..k], n) && b[k..] == body
  }

  lemma CountedIs(n: nat, body: Bytes)
    ensures Counted(Encode(n) + body, n, body)
  {
    VarintIs(n);
    var k := |Encode(n)|;
    assert (Encode(n) + body)[..k] == Encode(n) && (Encode(n) + body)[k..] == body;
  }

  lemma TextLaid(t: Text)
    ensures Counted(EncodeText(t), |t|, t)
  {
    CountedIs(|t|, t);
  }

  lemma {:induction false} ItemsJoined(vs: seq<Value>)
    ensures EncodeItems(vs) == Joined(seq(|vs|, i requires 0 <= i < |vs| => EncodeValue(vs[i])))
  {
    hide EncodeValue;
    var parts := seq(|vs|, i requires 0 <= i < |vs| => EncodeValue(vs[i]));
    if vs != [] {
      ItemsJoined(vs[1..]);
      assert parts[1..] == seq(|vs[1..]|, i requires 0 <= i < |vs[1..]| => EncodeValue(vs[1..][i]));
    }
  }

  lemma {:induction false} EntriesJoined(d: seq<Entry<Value>>)
    ensures EncodeEntries(d) == Joined(seq(|d|, i requires 0 <= i < |d| => EncodeText(d[i].key) + EncodeValue(d[i].value)))
  {
    hide EncodeValue, EncodeText;
    var parts := seq(|d|, i requires 0 <= i < |d| => EncodeText(d[i].key) + EncodeValue(d[i].value));
    if d != [] {
      EntriesJoined(d[1..]);
      var rest := d[1..];
      assert parts[1..] == seq(|rest|, i requires 0 <= i < |rest| => EncodeText(rest[i].key) + EncodeValue(rest[i].value));
    }
  }

  /** A tag byte, then the value's own form. */
  ghost predicate Laid(v: Value, b: Bytes) {
    b != [] &&
    var body := b[1..];
    match v
    case Null => b == [0]
    case Bool(x) => b == if x then [2] else [1]
    case I64(n) => b[0] == 3 && IsVarint(body, if n >= 0 then 2 * n else -2 * n - 1)
    case U64(u) => b[0] == 4 && IsVarint(body, u)
    case F64(bits) => b[0] == 5 && IsWord(body, bits, 8)
    case Str(t) => b[0] == 6 && Counted(body, |t|, t)
    case Blob(x) => b[0] == 7 && Counted(body, |x|, x)
    case List(items) =>
      b[0] == 8 && Counted(body, |items|, Joined(seq(|items|, i requires 0 <= i < |items| => EncodeValue(items[i]))))
    case Map(d) =>
      b[0] == 9 && Counted(body, |d|, Joined(seq(|d|, i requires 0 <= i < |d| => EncodeText(d[i].key) + EncodeValue(d[i].value))))
    case Decimal(units, scale) =>
      b[0] == 10 && body != [] && body[0] == scale && IsWord(body[1..], if units >= 0 then units else units + TWO128, 16)
    case Timestamp(t) => b[0] == 11 && IsWord(body, if t >= 0 then t else t + TWO64, 8)
  }

  /** Every value is laid out so, its parts too. */
  lemma ValueLaid(v: Value)
    ensures Laid(v, EncodeValue(v))
  {
    hide Counted, IsVarint, IsWord, EncodeItems, EncodeEntries;
    match v {
      case I64(n) => ZigzagIs(n); VarintIs(Zigzag(n)); hide Zigzag, Encode;
      case U64(u) => VarintIs(u);
      case F64(bits) => WordIs(bits, 8);
      case Str(t) => TextLaid(t);
      case Blob(x) => CountedIs(|x|, x);
      case List(items) => ItemsJoined(items); CountedIs(|items|, EncodeItems(items));
      case Map(d) => EntriesJoined(d); CountedIs(|d|, EncodeEntries(d));
      case Decimal(units, _) => WordIs(units % TWO128, 16); Complement(units, TWO128);
      case Timestamp(t) => WordIs(t % TWO64, 8); Complement(t, TWO64);
      case _ =>
    }
  }

  lemma Complement(x: int, size: nat)
    requires -(size as int) <= x < size
    ensures x % size == if x >= 0 then x else x + size
  {
  }

  /** A reader that accepts bytes has read the kind of value their tag byte names. */
  lemma TagRead(b: Bytes, depth: nat)
    requires DecodeValue(b, depth).Ok?
    ensures b != [] && EncodeValue(DecodeValue(b, depth).value)[0] == b[0] <= 11
  {
    TagFirst(DecodeValue(b, depth).value);
    hide Suffix, DecodeLeaf, DecodeList, DecodeMap, EncodeValue, Tag;
    if b[0] == 8 || b[0] == 9 { PartsTag(b[1..], depth); } else { LeafTag(b[0], b[1..]); }
  }

  lemma PartsTag(body: Bytes, depth: nat)
    requires depth <= MAX_DEPTH
    ensures DecodeList(body, depth).Ok? ==> Tag(DecodeList(body, depth).value) == 8
    ensures DecodeMap(body, depth).Ok? ==> Tag(DecodeMap(body, depth).value) == 9
  {
    hide Suffix, DecodeItems, DecodeEntries, ReadCount;
  }

  lemma LeafTag(tag: byte, body: Bytes)
    requires DecodeLeaf(tag, body).Ok?
    ensures Tag(DecodeLeaf(tag, body).value) == tag <= 11
  {
    hide Suffix, ReadVarint, ReadText, ReadLe, ReadU64, Take;
  }

  /** A list in a list in a list: sixty-four deep reads, and no deeper. */
  function Nested(n: nat): Value {
    if n == 0 then Null else List([Nested(n - 1)])
  }

  lemma {:induction false} NestedWithin(n: nat, room: int)
    ensures Within(Nested(n), room) <==> room >= n
  {
    if n > 0 {
      NestedWithin(n - 1, room - 1);
      assert Nested(n).items[0] == Nested(n - 1);
    }
  }

  lemma NestedReads(n: nat)
    ensures DecodeValue(EncodeValue(Nested(n)), 0) == if n <= 64 then Ok(Nested(n), []) else Bad
  {
    hide DecodeValue, EncodeValue, Within, Nested;
    NestedWithin(n, MAX_DEPTH);
    ValueRoundTrip(Nested(n), [], 0);
    assert EncodeValue(Nested(n)) + [] == EncodeValue(Nested(n));
  }

  // -- conditions ----------------------------------------------------------

  lemma {:induction false} OperandsJoined(es: seq<E.Expr>)
    ensures E.EncodeExprs(es) == Joined(seq(|es|, i requires 0 <= i < |es| => E.EncodeExpr(es[i])))
  {
    hide E.EncodeExpr;
    var parts := seq(|es|, i requires 0 <= i < |es| => E.EncodeExpr(es[i]));
    if es != [] {
      OperandsJoined(es[1..]);
      assert parts[1..] == seq(|es[1..]|, i requires 0 <= i < |es[1..]| => E.EncodeExpr(es[1..][i]));
    }
  }

  /** A counted list of operands, each in its own form. */
  ghost predicate Operands(b: Bytes, es: seq<E.Expr>) {
    Counted(b, |es|, Joined(seq(|es|, i requires 0 <= i < |es| => E.EncodeExpr(es[i]))))
  }

  lemma OperandsLaid(es: seq<E.Expr>)
    ensures Operands(Encode(|es|) + E.EncodeExprs(es), es)
  {
    OperandsJoined(es);
    CountedIs(|es|, E.EncodeExprs(es));
  }

  /** A tag byte, an operator's place in its list where there is one, then the operands. */
  ghost predicate LaidExpr(e: E.Expr, b: Bytes) {
    b != [] &&
    var body := b[1..];
    match e
    case Literal(v) => b[0] == 1 && body == EncodeValue(v)
    case Name(n) => b[0] == 2 && Counted(body, |n|, n)
    case Compare(op, l, r) =>
      && b[0] == 3 && body != [] && body[0] < 6
      && op == [E.Eq, E.Ne, E.Lt, E.CmpOp.Le, E.Gt, E.Ge][body[0]] && body[1..] == E.EncodeExpr(l) + E.EncodeExpr(r)
    case And(parts) => b[0] == 4 && Operands(body, parts)
    case Or(parts) => b[0] == 5 && Operands(body, parts)
    case Not(x) => b[0] == 6 && body == E.EncodeExpr(x)
    case IsNull(x) => b[0] == 7 && body == E.EncodeExpr(x)
    case IsNotNull(x) => b[0] == 8 && body == E.EncodeExpr(x)
    case Arith(op, l, r) =>
      && b[0] == 9 && body != [] && body[0] < 4
      && op == [E.Add, E.Sub, E.Mul, E.Div][body[0]] && body[1..] == E.EncodeExpr(l) + E.EncodeExpr(r)
    case In(x, list) =>
      b[0] == 10 && exists k | 0 <= k <= |body| :: body[..k] == E.EncodeExpr(x) && Operands(body[k..], list)
    case Like(x, pattern) =>
      b[0] == 11 && exists k | 0 <= k <= |body| :: body[..k] == E.EncodeExpr(x) && Counted(body[k..], |pattern|, pattern)
  }

  lemma ExprLaid(e: E.Expr)
    ensures LaidExpr(e, E.EncodeExpr(e))
  {
    hide EncodeText, EncodeValue, Counted, Operands;
    var body := E.EncodeExpr(e)[1..];
    match e {
      case Name(n) => TextLaid(n);
      case And(parts) => OperandsLaid(parts);
      case Or(parts) => OperandsLaid(parts);
      case In(x, list) =>
        OperandsLaid(list);
        SplitAt(E.EncodeExpr(x), Encode(|list|) + E.EncodeExprs(list), body);
      case Like(x, pattern) =>
        TextLaid(pattern);
        SplitAt(E.EncodeExpr(x), EncodeText(pattern), body);
      case _ =>
    }
  }

  function NodeTag(e: E.Expr): byte {
    match e
    case Literal(_) => 1
    case Name(_) => 2
    case Compare(_, _, _) => 3
    case And(_) => 4
    case Or(_) => 5
    case Not(_) => 6
    case IsNull(_) => 7
    case IsNotNull(_) => 8
    case Arith(_, _, _) => 9
    case In(_, _) => 10
    case Like(_, _) => 11
  }

  lemma NodeTagFirst(e: E.Expr)
    ensures E.EncodeExpr(e)[0] == NodeTag(e)
  {
    hide EncodeValue, EncodeText, Encode, E.EncodeExprs;
  }

  lemma KindsRead(b: Bytes, depth: nat)
    requires depth <= E.MAX_NODES
    ensures E.ReadCompare(b, depth).Ok? ==> E.ReadCompare(b, depth).value.Compare?
    ensures E.ReadArith(b, depth).Ok? ==> E.ReadArith(b, depth).value.Arith?
    ensures E.ReadIn(b, depth).Ok? ==> E.ReadIn(b, depth).value.In?
    ensures E.ReadLike(b, depth).Ok? ==> E.ReadLike(b, depth).value.Like?
  {
    hide Suffix, E.ReadExpr, E.ReadCounted, ReadText, E.CmpFrom, E.ArithFrom;
  }

  lemma NodeKindRead(tag: byte, body: Bytes, depth: nat)
    requires depth <= E.MAX_NODES && E.ReadNode(tag, body, depth).Ok?
    ensures NodeTag(E.ReadNode(tag, body, depth).value) == tag
  {
    hide E.ReadNode, Suffix, E.ReadCompare, E.ReadArith, E.ReadIn, E.ReadLike;
    if tag < 6 && tag != 3 {
      EarlyKinds(tag, body, depth);
    } else if 6 <= tag <= 8 {
      OneOperandKinds(tag, body, depth);
    } else {
      KindsRead(body, depth);
      E.NodeKinds(body, depth);
      if tag > 11 { NoMoreKinds(tag, body, depth); }
    }
  }

  lemma EarlyKinds(tag: byte, body: Bytes, depth: nat)
    requires depth <= E.MAX_NODES && tag < 6 && tag != 3 && E.ReadNode(tag, body, depth).Ok?
    ensures NodeTag(E.ReadNode(tag, body, depth).value) == tag
  {
    hide Suffix, E.ReadCounted, ReadText, DecodeValue;
  }

  lemma OneOperandKinds(tag: byte, body: Bytes, depth: nat)
    requires depth <= E.MAX_NODES && 6 <= tag <= 8 && E.ReadNode(tag, body, depth).Ok?
    ensures NodeTag(E.ReadNode(tag, body, depth).value) == tag
  {
    hide Suffix, E.ReadExpr;
  }

  lemma NoMoreKinds(tag: byte, body: Bytes, depth: nat)
    requires depth <= E.MAX_NODES && (tag == 0 || tag > 11)
    ensures E.ReadNode(tag, body, depth) == Bad
  {
    hide Suffix;
  }

  /** A reader that accepts bytes has read the kind of node their tag byte names. */
  lemma NodeRead(b: Bytes, depth: nat)
    requires E.ReadExpr(b, depth).Ok?
    ensures b != [] && E.EncodeExpr(E.ReadExpr(b, depth).value)[0] == b[0] && 1 <= b[0] <= 11
  {
    NodeTagFirst(E.ReadExpr(b, depth).value);
    NodeKindRead(b[0], b[1..], depth);
    hide Suffix, E.EncodeExpr, E.ReadNode;
  }

  lemma SplitAt(a: Bytes, b: Bytes, whole: Bytes)
    requires whole == a + b
    ensures |a| <= |whole| && whole[..|a|] == a && whole[|a|..] == b
  {
  }

  /** Not, and not, and not: thirty-two deep reads, and no deeper. */
  function Nots(n: nat): E.Expr {
    if n == 0 then E.Literal(Null) else E.Not(Nots(n - 1))
  }

  lemma {:induction false} NotsReadable(n: nat, room: int)
    ensures E.Readable(Nots(n), room) <==> room >= n
  {
    if n > 0 { NotsReadable(n - 1, room - 1); }
  }

  lemma NotsRead(n: nat)
    ensures E.DecodeExpr(E.EncodeExpr(Nots(n))) == if n <= 32 then Some(Nots(n)) else None
  {
    hide E.ReadExpr, E.EncodeExpr, E.Readable, Nots;
    NotsReadable(n, E.MAX_NODES);
    E.ExprRoundTrip(Nots(n), [], 0);
    assert E.EncodeExpr(Nots(n)) + [] == E.EncodeExpr(Nots(n));
  }

  // -- journal entries -----------------------------------------------------

  /** A 32-bit length, then the name. */
  function NameParts(t: Text): seq<Bytes> {
    [LowBytes(|t| % 0x1_0000_0000, 4), t]
  }

  function FieldParts(d: seq<Entry<Value>>): seq<Bytes> {
    seq(|d|, i requires 0 <= i < |d| => Joined(NameParts(d[i].key) + [EncodeValue(d[i].value)]))
  }

  /** Collection, 64-bit id, then 0 for a delete or 1, a 32-bit count and that many fields. */
  function EntryParts(w: J.Write): seq<Bytes> {
    NameParts(w.coll) + [LowBytes(w.id, 8)] +
    match w.record
    case None => [[0]]
    case Some(d) => [[1], LowBytes(|d| % 0x1_0000_0000, 4)] + FieldParts(d)
  }

  lemma JoinedNext(x: Bytes, rest: seq<Bytes>)
    ensures Joined([x] + rest) == x + Joined(rest)
  {
    assert ([x] + rest)[1..] == rest;
  }

  lemma JoinedStep(x: Bytes, a: seq<Bytes>, b: seq<Bytes>)
    requires Joined(a + b) == Joined(a) + Joined(b)
    ensures Joined([x] + a + b) == Joined([x] + a) + Joined(b)
  {
    JoinedNext(x, a);
    JoinedNext(x, a + b);
    hide Joined;
    assert [x] + a + b == [x] + (a + b);
  }

  lemma {:induction false} JoinedBoth(a: seq<Bytes>, b: seq<Bytes>)
    ensures Joined(a + b) == Joined(a) + Joined(b)
  {
    if a == [] {
      assert a + b == b;
    } else {
      hide Joined;
      JoinedBoth(a[1..], b);
      JoinedStep(a[0], a[1..], b);
      assert a == [a[0]] + a[1..];
    }
  }

  lemma JoinedOne(x: Bytes)
    ensures Joined([x]) == x
  {
    assert Joined([x][1..]) == [];
  }

  lemma JoinedTwo(x: Bytes, y: Bytes)
    ensures Joined([x, y]) == x + y
  {
    assert [x, y][1..] == [y];
    JoinedOne(y);
  }

  lemma NameLaid(t: Text)
    ensures J.EncodeName(t) == Joined(NameParts(t))
  {
    JoinedTwo(LowBytes(|t| % 0x1_0000_0000, 4), t);
    hide LowBytes;
  }

  lemma {:induction false} FieldsLaid(d: seq<Entry<Value>>)
    ensures J.EncodeFields(d) == Joined(FieldParts(d))
  {
    hide EncodeValue, J.EncodeName, NameParts;
    if d != [] {
      FieldsLaid(d[1..]);
      assert FieldParts(d)[1..] == FieldParts(d[1..]);
      NameLaid(d[0].key);
      JoinedBoth(NameParts(d[0].key), [EncodeValue(d[0].value)]);
      JoinedOne(EncodeValue(d[0].value));
    }
  }

  lemma EntryLaid(w: J.Write)
    ensures J.EncodeWrite(w) == Joined(EntryParts(w))
  {
    hide LowBytes, J.EncodeName, NameParts, FieldParts;
    NameLaid(w.coll);
    var id := LowBytes(w.id, 8);
    var front := NameParts(w.coll) + [id];
    JoinedBoth(NameParts(w.coll), [id]);
    JoinedOne(id);
    match w.record {
      case None =>
        JoinedBoth(front, [[0]]);
        JoinedOne([0]);
      case Some(d) =>
        var count := LowBytes(|d| % 0x1_0000_0000, 4);
        FieldsLaid(d);
        JoinedTwo([1], count);
        JoinedBoth([[1], count], FieldParts(d));
        JoinedBoth(front, [[1], count] + FieldParts(d));
    }
  }

  lemma {:induction false} EntriesLaid(ws: seq<J.Write>)
    ensures J.EncodeWrites(ws) == Joined(seq(|ws|, i requires 0 <= i < |ws| => J.EncodeWrite(ws[i])))
  {
    hide J.EncodeWrite;
    var parts := seq(|ws|, i requires 0 <= i < |ws| => J.EncodeWrite(ws[i]));
    if ws != [] {
      EntriesLaid(ws[1..]);
      assert parts[1..] == seq(|ws[1..]|, i requires 0 <= i < |ws[1..]| => J.EncodeWrite(ws[1..][i]));
    }
  }

  /** A journal is four letters and its entries. */
  lemma JournalLaid(ws: seq<J.Write>)
    ensures J.JournalBytes(ws) ==
      ['X' as int, 'S' as int, 'H' as int, '1' as int] + Joined(seq(|ws|, i requires 0 <= i < |ws| => J.EncodeWrite(ws[i])))
  {
    EntriesLaid(ws);
    hide J.EncodeWrites;
  }

  // -- index blobs ---------------------------------------------------------

  function IdParts(ids: seq<u64>): (parts: seq<Bytes>)
    ensures |parts| == |ids|
  {
    seq(|ids|, i requires 0 <= i < |ids| => LowBytes(ids[i], 8))
  }

  /** The key, a 64-bit count, and the ids. */
  function GroupParts(g: B.Group): seq<Bytes> {
    [EncodeValue(g.key), LowBytes(|g.ids|, 8)] + IdParts(g.ids)
  }

  lemma {:induction false} IdsLaid(ids: seq<u64>)
    ensures B.EncodeIds(ids) == Joined(IdParts(ids))
  {
    hide LowBytes;
    if ids != [] {
      IdsLaid(ids[1..]);
      assert IdParts(ids)[1..] == IdParts(ids[1..]);
    }
  }

  lemma GroupLaid(g: B.Group)
    ensures B.EncodeGroup(g) == Joined(GroupParts(g))
  {
    hide LowBytes, EncodeValue, B.EncodeIds;
    IdsLaid(g.ids);
    var key, count := EncodeValue(g.key), LowBytes(|g.ids|, 8);
    JoinedTwo(key, count);
    JoinedBoth([key, count], IdParts(g.ids));
    assert key + (count + B.EncodeIds(g.ids)) == key + count + B.EncodeIds(g.ids);
  }

  lemma {:induction false} GroupsLaid(gs: seq<B.Group>)
    ensures B.EncodeGroups(gs) == Joined(seq(|gs|, i requires 0 <= i < |gs| => B.EncodeGroup(gs[i])))
  {
    hide B.EncodeGroup;
    var parts := seq(|gs|, i requires 0 <= i < |gs| => B.EncodeGroup(gs[i]));
    if gs != [] {
      GroupsLaid(gs[1..]);
      assert parts[1..] == seq(|gs[1..]|, i requires 0 <= i < |gs[1..]| => B.EncodeGroup(gs[1..][i]));
    }
  }

  /** A 64-bit count of groups, and the groups. */
  lemma IndexLaid(gs: Few<B.Group>)
    ensures B.EncodeIndex(gs) == Joined([LowBytes(|gs|, 8)] + seq(|gs|, i requires 0 <= i < |gs| => B.EncodeGroup(gs[i])))
  {
    GroupsLaid(gs);
    JoinedOne(LowBytes(|gs|, 8));
    JoinedBoth([LowBytes(|gs|, 8)], seq(|gs|, i requires 0 <= i < |gs| => B.EncodeGroup(gs[i])));
    hide LowBytes, B.EncodeGroup, B.EncodeGroups;
  }

  // -- hex -----------------------------------------------------------------

  const LOWER: string := "0123456789abcdef"
  const UPPER: string := "0123456789ABCDEF"

  lemma DigitIs(n: nat)
    requires n < 16
    ensures B.Digit(n) == LOWER[n] as int
  {
  }

  lemma HexNext(b: Bytes)
    requires b != []
    ensures B.ToHex(b) == [B.Digit(b[0] / 16), B.Digit(b[0] % 16)] + B.ToHex(b[1..])
  {
    hide B.Digit;
  }

  /** Two digits a byte, the high one first, in lower case. */
  lemma {:induction false} HexDigits(b: Bytes, i: nat)
    requires i < |b|
    ensures B.ToHex(b)[2 * i] == LOWER[b[i] / 16] as int && B.ToHex(b)[2 * i + 1] == LOWER[b[i] % 16] as int
  {
    hide B.ToHex, B.Digit, LOWER;
    HexNext(b);
    if i > 0 {
      HexDigits(b[1..], i - 1);
    } else {
      DigitIs(b[0] / 16);
      DigitIs(b[0] % 16);
    }
  }

  /** A digit of either case is read, and nothing else is. */
  lemma DigitsRead(c: byte, k: nat)
    requires k < 16
    ensures B.FromDigit(c) == Some(k) <==> c == LOWER[k] as int || c == UPPER[k] as int
    ensures B.FromDigit(c).Some? ==> B.FromDigit(c).value < 16
  {
  }

  // -- delta rows ----------------------------------------------------------

  /** A zero byte for a null; else the signed offset from the first value, small ones first, and one more, in 64 bits. */
  lemma RowLaid(first: i64, c: D.Cell, offset: i64)
    requires c.Some? ==> (c.value - first - offset) % TWO64 == 0
    ensures IsVarint(D.EncodeCell(first, c),
      if c.None? then 0 else if offset == -TWO63 then 0 else if offset >= 0 then 2 * offset + 1 else -2 * offset)
  {
    VarintIs(0);
    if c.Some? {
      D.WrapUnique(c.value - first, offset);
      ZigzagIs(offset);
      VarintIs(D.Code(first, c.value));
      hide Zigzag, IsVarint, Encode, Wrap;
    }
  }
}
