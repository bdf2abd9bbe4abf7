/**
 * The byte form of a condition: one tag a node, operands after it. The writer
 * and the reader share one depth limit, and the reader refuses whatever the
 * writer could not have produced at that depth.
 */
module Expressions {
  import opened Basics
  import opened Varint
  import opened Wire
  import opened Values

  datatype CmpOp = Eq | Ne | Lt | Le | Gt | Ge
  datatype ArithOp = Add | Sub | Mul | Div

  datatype Expr =
    | Literal(value: Value)
    | Name(name: Text)
    | Compare(cmp: CmpOp, lhs: Expr, rhs: Expr)
    | And(parts: Few<Expr>)
    | Or(parts: Few<Expr>)
    | Not(inner: Expr)
    | IsNull(inner: Expr)
    | IsNotNull(inner: Expr)
    | Arith(arith: ArithOp, lhs: Expr, rhs: Expr)
    | In(needle: Expr, list: Few<Expr>)
    | Like(subject: Expr, pattern: Text)

  const MAX_NODES: nat := 32

  // -- operator codes ------------------------------------------------------

  function CmpCode(op: CmpOp): byte {
    match op case Eq => 0 case Ne => 1 case Lt => 2 case Le => 3 case Gt => 4 case Ge => 5
  }

  function CmpFrom(b: byte): Option<CmpOp> {
    match b
    case 0 => Some(Eq) case 1 => Some(Ne) case 2 => Some(Lt)
    case 3 => Some(CmpOp.Le) case 4 => Some(Gt) case 5 => Some(Ge)
    case _ => None
  }

  function ArithCode(op: ArithOp): byte {
    match op case Add => 0 case Sub => 1 case Mul => 2 case Div => 3
  }

  function ArithFrom(b: byte): Option<ArithOp> {
    match b case 0 => Some(Add) case 1 => Some(Sub) case 2 => Some(Mul) case 3 => Some(Div) case _ => None
  }

  // -- depth ---------------------------------------------------------------

  /** No node of `e` lies more than `room` levels down. */
  predicate Shallow(e: Expr, room: int)
    decreases e
  {
    && room >= 0
    && match e
       case Literal(_) => true
       case Name(_) => true
       case Compare(_, l, r) => Shallow(l, room - 1) && Shallow(r, room - 1)
       case Arith(_, l, r) => Shallow(l, room - 1) && Shallow(r, room - 1)
       case And(parts) => forall i | 0 <= i < |parts| :: Shallow(parts[i], room - 1)
       case Or(parts) => forall i | 0 <= i < |parts| :: Shallow(parts[i], room - 1)
       case Not(x) => Shallow(x, room - 1)
       case IsNull(x) => Shallow(x, room - 1)
       case IsNotNull(x) => Shallow(x, room - 1)
       case In(x, list) => Shallow(x, room - 1) && forall i | 0 <= i < |list| :: Shallow(list[i], room - 1)
       case Like(x, _) => Shallow(x, room - 1)
  }

  /** Every literal is a value the value reader accepts. */
  predicate Literals(e: Expr)
    decreases e
  {
    match e
    case Literal(v) => Within(v, MAX_DEPTH)
    case Name(_) => true
    case Compare(_, l, r) => Literals(l) && Literals(r)
    case Arith(_, l, r) => Literals(l) && Literals(r)
    case And(parts) => forall i | 0 <= i < |parts| :: Literals(parts[i])
    case Or(parts) => forall i | 0 <= i < |parts| :: Literals(parts[i])
    case Not(x) => Literals(x)
    case IsNull(x) => Literals(x)
    case IsNotNull(x) => Literals(x)
    case In(x, list) => Literals(x) && forall i | 0 <= i < |list| :: Literals(list[i])
    case Like(x, _) => Literals(x)
  }

  predicate Readable(e: Expr, room: int) { Shallow(e, room) && Literals(e) }

  predicate AllReadable(es: seq<Expr>, room: int) {
    forall i | 0 <= i < |es| :: Readable(es[i], room)
  }

  // -- the byte form -------------------------------------------------------

  function EncodeExpr(e: Expr): (b: Bytes)
    ensures b != []
    decreases e
  {
    match e
    case Literal(v) => [1] + EncodeValue(v)
    case Name(n) => [2] + EncodeText(n)
    case Compare(op, l, r) => [3] + ([CmpCode(op)] + (EncodeExpr(l) + EncodeExpr(r)))
    case And(parts) => [4] + (Encode(|parts|) + EncodeExprs(parts))
    case Or(parts) => [5] + (Encode(|parts|) + EncodeExprs(parts))
    case Not(x) => [6] + EncodeExpr(x)
    case IsNull(x) => [7] + EncodeExpr(x)
    case IsNotNull(x) => [8] + EncodeExpr(x)
    case Arith(op, l, r) => [9] + ([ArithCode(op)] + (EncodeExpr(l) + EncodeExpr(r)))
    case In(x, list) => [10] + (EncodeExpr(x) + (Encode(|list|) + EncodeExprs(list)))
    case Like(x, pattern) => [11] + (EncodeExpr(x) + EncodeText(pattern))
  }

  function EncodeExprs(es: seq<Expr>): (b: Bytes)
    ensures |b| >= |es|
    decreases es
  {
    if es == [] then [] else EncodeExpr(es[0]) + EncodeExprs(es[1..])
  }

  function ReadExpr(b: Bytes, depth: nat): (r: Parsed<Expr>)
    ensures r.Ok? ==> |r.rest| < |b| && Suffix(r.rest, b)
    decreases MAX_NODES + 1 - depth, 3, 0
  {
    if depth > MAX_NODES then Bad
    else
      var (tag, body) :- ReadByte(b);
      ReadNode(tag, body, depth)
  }

  function ReadNode(tag: byte, body: Bytes, depth: nat): (r: Parsed<Expr>)
    requires depth <= MAX_NODES
    ensures r.Ok? ==> Suffix(r.rest, body)
    decreases MAX_NODES + 1 - depth, 2, 0
  {
    match tag
    case 1 => var (v, rest) :- DecodeValue(body, 0); Ok(Literal(v), rest)
    case 2 => var (n, rest) :- ReadText(body); Ok(Name(n), rest)
    case 3 => ReadCompare(body, depth)
    case 4 => var (parts, rest) :- ReadCounted(body, depth); Ok(And(parts), rest)
    case 5 => var (parts, rest) :- ReadCounted(body, depth); Ok(Or(parts), rest)
    case 6 => var (x, rest) :- ReadExpr(body, depth + 1); Ok(Not(x), rest)
    case 7 => var (x, rest) :- ReadExpr(body, depth + 1); Ok(IsNull(x), rest)
    case 8 => var (x, rest) :- ReadExpr(body, depth + 1); Ok(IsNotNull(x), rest)
    case 9 => ReadArith(body, depth)
    case 10 => ReadIn(body, depth)
    case 11 => ReadLike(body, depth)
    case _ => Bad
  }

  function ReadCompare(b: Bytes, depth: nat): (r: Parsed<Expr>)
    requires depth <= MAX_NODES
    ensures r.Ok? ==> Suffix(r.rest, b)
    decreases MAX_NODES + 1 - depth, 1, 0
  {
    var (code, body) :- ReadByte(b);
    if CmpFrom(code) == None then Bad
    else
      var (l, mid) :- ReadExpr(body, depth + 1);
      var (r, rest) :- ReadExpr(mid, depth + 1);
      Ok(Compare(CmpFrom(code).value, l, r), rest)
  }

  function ReadArith(b: Bytes, depth: nat): (r: Parsed<Expr>)
    requires depth <= MAX_NODES
    ensures r.Ok? ==> Suffix(r.rest, b)
    decreases MAX_NODES + 1 - depth, 1, 0
  {
    var (code, body) :- ReadByte(b);
    if ArithFrom(code) == None then Bad
    else
      var (l, mid) :- ReadExpr(body, depth + 1);
      var (r, rest) :- ReadExpr(mid, depth + 1);
      Ok(Arith(ArithFrom(code).value, l, r), rest)
  }

  function ReadIn(b: Bytes, depth: nat): (r: Parsed<Expr>)
    requires depth <= MAX_NODES
    ensures r.Ok? ==> Suffix(r.rest, b)
    decreases MAX_NODES + 1 - depth, 1, 1
  {
    var (x, mid) :- ReadExpr(b, depth + 1);
    var (list, rest) :- ReadCounted(mid, depth);
    Ok(In(x, list), rest)
  }

  function ReadLike(b: Bytes, depth: nat): (r: Parsed<Expr>)
    requires depth <= MAX_NODES
    ensures r.Ok? ==> Suffix(r.rest, b)
    decreases MAX_NODES + 1 - depth, 1, 0
  {
    var (x, mid) :- ReadExpr(b, depth + 1);
    var (pattern, rest) :- ReadText(mid);
    Ok(Like(x, pattern), rest)
  }

  /** A counted list of operands; the count is refused when the bytes left could not hold it. */
  function ReadCounted(b: Bytes, depth: nat): (r: Parsed<Few<Expr>>)
    requires depth <= MAX_NODES
    ensures r.Ok? ==> Suffix(r.rest, b)
    decreases MAX_NODES + 1 - depth, 1, 0
  {
    var (n, body) :- ReadCount(b);
    var (es, rest) :- ReadExprs(n, body, depth);
    Ok(es, rest)
  }

  function ReadExprs(n: nat, b: Bytes, depth: nat): (r: Parsed<seq<Expr>>)
    requires depth <= MAX_NODES
    ensures r.Ok? ==> |r.value| == n && Suffix(r.rest, b)
    decreases MAX_NODES + 1 - depth, 0, n
  {
    if n == 0 then Ok([], b)
    else
      var (e, tail) :- ReadExpr(b, depth + 1);
      var (es, rest) :- ReadExprs(n - 1, tail, depth);
      Ok([e] + es, rest)
  }

  /** A whole buffer: one expression and nothing after it. */
  function DecodeExpr(b: Bytes): Option<Expr> {
    match ReadExpr(b, 0)
    case Ok(e, rest) => if rest == [] then Some(e) else None
    case Bad => None
  }

  // -- reading undoes writing ----------------------------------------------

  lemma NodeOf(tag: byte, body: Bytes, depth: nat)
    requires depth <= MAX_NODES
    ensures ReadExpr([tag] + body, depth) == ReadNode(tag, body, depth)
  {
    hide ReadNode, Suffix;
    assert ([tag] + body)[1..] == body;
  }

  lemma OpCodes(c: CmpOp, a: ArithOp)
    ensures CmpFrom(CmpCode(c)) == Some(c) && ArithFrom(ArithCode(a)) == Some(a)
  {
  }

  /** Two operands behind an operator code. */
  lemma CompareReads(op: CmpOp, l: Expr, r: Expr, body: Bytes, mid: Bytes, suffix: Bytes, depth: nat, okL: bool, okR: bool)
    requires depth <= MAX_NODES
    requires ReadExpr(body, depth + 1) == Expected(okL, l, mid)
    requires ReadExpr(mid, depth + 1) == Expected(okR, r, suffix)
    ensures ReadCompare([CmpCode(op)] + body, depth) == Expected(okL && okR, Compare(op, l, r), suffix)
  {
    OpCodes(op, Add);
    assert ([CmpCode(op)] + body)[1..] == body;
    hide ReadExpr, Suffix, CmpCode, CmpFrom;
  }

  lemma ArithReads(op: ArithOp, l: Expr, r: Expr, body: Bytes, mid: Bytes, suffix: Bytes, depth: nat, okL: bool, okR: bool)
    requires depth <= MAX_NODES
    requires ReadExpr(body, depth + 1) == Expected(okL, l, mid)
    requires ReadExpr(mid, depth + 1) == Expected(okR, r, suffix)
    ensures ReadArith([ArithCode(op)] + body, depth) == Expected(okL && okR, Arith(op, l, r), suffix)
  {
    OpCodes(Eq, op);
    assert ([ArithCode(op)] + body)[1..] == body;
    hide ReadExpr, Suffix, ArithCode, ArithFrom;
  }

  lemma CountedReads(es: Few<Expr>, body: Bytes, suffix: Bytes, depth: nat, ok: bool)
    requires depth <= MAX_NODES && ExprsReadBack(es, suffix, depth)
    requires body == EncodeExprs(es) + suffix && ok == AllReadable(es, MAX_NODES - (depth + 1))
    ensures ReadCounted(Encode(|es|) + body, depth) == Expected(ok, es, suffix)
  {
    hide ReadExprs, EncodeExprs, AllReadable, ReadCount, Encode, Suffix;
    CountOf(|es|, body);
  }

  lemma InReads(x: Expr, list: Few<Expr>, b: Bytes, mid: Bytes, suffix: Bytes, depth: nat, okX: bool, ok: bool)
    requires depth <= MAX_NODES
    requires ReadExpr(b, depth + 1) == Expected(okX, x, mid)
    requires ReadCounted(mid, depth) == Expected(ok, list, suffix)
    ensures ReadIn(b, depth) == Expected(okX && ok, In(x, list), suffix)
  {
    hide ReadExpr, ReadCounted, Suffix;
  }

  lemma LikeReads(x: Expr, pattern: Text, b: Bytes, suffix: Bytes, depth: nat, okX: bool)
    requires depth <= MAX_NODES
    requires ReadExpr(b, depth + 1) == Expected(okX, x, EncodeText(pattern) + suffix)
    ensures ReadLike(b, depth) == Expected(okX, Like(x, pattern), suffix)
  {
    hide ReadExpr, ReadText, EncodeText, Suffix;
    ReadTextOf(pattern, suffix);
  }

  lemma UnaryReads(tag: byte, x: Expr, b: Bytes, suffix: Bytes, depth: nat, ok: bool)
    requires depth <= MAX_NODES && 6 <= tag <= 8
    requires ReadExpr(b, depth + 1) == Expected(ok, x, suffix)
    ensures ReadNode(tag, b, depth) ==
      Expected(ok, if tag == 6 then Not(x) else if tag == 7 then IsNull(x) else IsNotNull(x), suffix)
  {
    hide ReadExpr, Suffix;
  }

  lemma ReadableParts(e: Expr, depth: nat)
    requires depth <= MAX_NODES
    ensures var room := MAX_NODES - (depth + 1);
      Readable(e, MAX_NODES - depth) <==>
        match e
        case Literal(v) => Within(v, MAX_DEPTH)
        case Name(_) => true
        case Compare(_, l, r) => Readable(l, room) && Readable(r, room)
        case Arith(_, l, r) => Readable(l, room) && Readable(r, room)
        case And(parts) => AllReadable(parts, room)
        case Or(parts) => AllReadable(parts, room)
        case Not(x) => Readable(x, room)
        case IsNull(x) => Readable(x, room)
        case IsNotNull(x) => Readable(x, room)
        case In(x, list) => Readable(x, room) && AllReadable(list, room)
        case Like(x, _) => Readable(x, room)
  {
    hide Within;
  }

  /**
   * Reading an expression's bytes, whatever follows them: the expression and
   * exactly its bytes consumed when no node lies deeper than the limit and every
   * literal is a readable value, and a refusal otherwise.
   */
  lemma {:induction false} ExprRoundTrip(e: Expr, suffix: Bytes, depth: nat)
    requires depth <= MAX_NODES
    ensures ReadExpr(EncodeExpr(e) + suffix, depth) == Expected(Readable(e, MAX_NODES - depth), e, suffix)
    decreases e, 1
  {
    match e
    case Literal(v) =>
      ReadableParts(e, depth);
      LiteralReads(v, suffix, depth);
    case Name(n) =>
      ReadableParts(e, depth);
      NameReads(n, suffix, depth);
    case Compare(_, _, _) => CompareCase(e, suffix, depth);
    case Arith(_, _, _) => ArithCase(e, suffix, depth);
    case And(_) => ListCase(e, suffix, depth);
    case Or(_) => ListCase(e, suffix, depth);
    case In(_, _) => InCase(e, suffix, depth);
    case Like(_, _) => LikeCase(e, suffix, depth);
    case _ => UnaryCase(e, suffix, depth);
  }

  lemma PairLayout(e: Expr, suffix: Bytes)
    requires e.Compare? || e.Arith?
    ensures EncodeExpr(e) + suffix == (if e.Compare? then [3] else [9]) +
      ([if e.Compare? then CmpCode(e.cmp) else ArithCode(e.arith)] + (EncodeExpr(e.lhs) + (EncodeExpr(e.rhs) + suffix)))
  {
    hide CmpCode, ArithCode;
  }

  lemma Layout(e: Expr, suffix: Bytes)
    ensures e.And? || e.Or? ==> (EncodeExpr(e) + suffix ==
      [if e.And? then 4 else 5] + (Encode(|e.parts|) + (EncodeExprs(e.parts) + suffix)))
    ensures e.Not? || e.IsNull? || e.IsNotNull? ==> (EncodeExpr(e) + suffix ==
      [if e.Not? then 6 else if e.IsNull? then 7 else 8] + (EncodeExpr(e.inner) + suffix))
    ensures e.In? ==> (EncodeExpr(e) + suffix ==
      [10] + (EncodeExpr(e.needle) + (Encode(|e.list|) + (EncodeExprs(e.list) + suffix))))
    ensures e.Like? ==> (EncodeExpr(e) + suffix == [11] + (EncodeExpr(e.subject) + (EncodeText(e.pattern) + suffix)))
  {
    hide Encode, EncodeExprs, EncodeText;
  }

  lemma {:induction false} CompareCase(e: Expr, suffix: Bytes, depth: nat)
    requires depth <= MAX_NODES && e.Compare?
    ensures ReadExpr(EncodeExpr(e) + suffix, depth) == Expected(Readable(e, MAX_NODES - depth), e, suffix)
    decreases e, 0
  {
    hide *;
    ReadableParts(e, depth);
    var room := MAX_NODES - (depth + 1);
    var tail := EncodeExpr(e.rhs) + suffix;
    var body := EncodeExpr(e.lhs) + tail;
    PairLayout(e, suffix);
    ChildRoundTrip(e.lhs, tail, depth);
    ChildRoundTrip(e.rhs, suffix, depth);
    CompareReads(e.cmp, e.lhs, e.rhs, body, tail, suffix, depth, Readable(e.lhs, room), Readable(e.rhs, room));
    NodeOf(3, [CmpCode(e.cmp)] + body, depth);
    NodeKinds([CmpCode(e.cmp)] + body, depth);
  }

  lemma {:induction false} ArithCase(e: Expr, suffix: Bytes, depth: nat)
    requires depth <= MAX_NODES && e.Arith?
    ensures ReadExpr(EncodeExpr(e) + suffix, depth) == Expected(Readable(e, MAX_NODES - depth), e, suffix)
    decreases e, 0
  {
    hide *;
    ReadableParts(e, depth);
    var room := MAX_NODES - (depth + 1);
    var tail := EncodeExpr(e.rhs) + suffix;
    var body := EncodeExpr(e.lhs) + tail;
    PairLayout(e, suffix);
    ChildRoundTrip(e.lhs, tail, depth);
    ChildRoundTrip(e.rhs, suffix, depth);
    ArithReads(e.arith, e.lhs, e.rhs, body, tail, suffix, depth, Readable(e.lhs, room), Readable(e.rhs, room));
    NodeOf(9, [ArithCode(e.arith)] + body, depth);
    NodeKinds([ArithCode(e.arith)] + body, depth);
  }

  lemma {:induction false} ListCase(e: Expr, suffix: Bytes, depth: nat)
    requires depth <= MAX_NODES && (e.And? || e.Or?)
    ensures ReadExpr(EncodeExpr(e) + suffix, depth) == Expected(Readable(e, MAX_NODES - depth), e, suffix)
    decreases e, 0
  {
    hide *;
    ReadableParts(e, depth);
    var room := MAX_NODES - (depth + 1);
    var tag := if e.And? then 4 else 5;
    var items := EncodeExprs(e.parts) + suffix;
    var body := Encode(|e.parts|) + items;
    Layout(e, suffix);
    ExprsRoundTrip(e.parts, suffix, depth);
    CountedReads(e.parts, items, suffix, depth, AllReadable(e.parts, room));
    NodeOf(tag, body, depth);
    ListReads(tag, e.parts, body, suffix, depth, AllReadable(e.parts, room));
  }

  lemma {:induction false} UnaryCase(e: Expr, suffix: Bytes, depth: nat)
    requires depth <= MAX_NODES && (e.Not? || e.IsNull? || e.IsNotNull?)
    ensures ReadExpr(EncodeExpr(e) + suffix, depth) == Expected(Readable(e, MAX_NODES - depth), e, suffix)
    decreases e, 0
  {
    hide *;
    ReadableParts(e, depth);
    var room := MAX_NODES - (depth + 1);
    var tag := if e.Not? then 6 else if e.IsNull? then 7 else 8;
    var body := EncodeExpr(e.inner) + suffix;
    Layout(e, suffix);
    ChildRoundTrip(e.inner, suffix, depth);
    NodeOf(tag, body, depth);
    UnaryReads(tag, e.inner, body, suffix, depth, Readable(e.inner, room));
  }

  lemma {:induction false} InCase(e: Expr, suffix: Bytes, depth: nat)
    requires depth <= MAX_NODES && e.In?
    ensures ReadExpr(EncodeExpr(e) + suffix, depth) == Expected(Readable(e, MAX_NODES - depth), e, suffix)
    decreases e, 0
  {
    hide *;
    ReadableParts(e, depth);
    var room := MAX_NODES - (depth + 1);
    var items := EncodeExprs(e.list) + suffix;
    var mid := Encode(|e.list|) + items;
    var body := EncodeExpr(e.needle) + mid;
    Layout(e, suffix);
    ChildRoundTrip(e.needle, mid, depth);
    ExprsRoundTrip(e.list, suffix, depth);
    CountedReads(e.list, items, suffix, depth, AllReadable(e.list, room));
    InReads(e.needle, e.list, body, mid, suffix, depth, Readable(e.needle, room), AllReadable(e.list, room));
    NodeOf(10, body, depth);
    NodeKinds(body, depth);
  }

  lemma {:induction false} LikeCase(e: Expr, suffix: Bytes, depth: nat)
    requires depth <= MAX_NODES && e.Like?
    ensures ReadExpr(EncodeExpr(e) + suffix, depth) == Expected(Readable(e, MAX_NODES - depth), e, suffix)
    decreases e, 0
  {
    hide *;
    ReadableParts(e, depth);
    var room := MAX_NODES - (depth + 1);
    var tail := EncodeText(e.pattern) + suffix;
    var body := EncodeExpr(e.subject) + tail;
    Layout(e, suffix);
    ChildRoundTrip(e.subject, tail, depth);
    LikeReads(e.subject, e.pattern, body, suffix, depth, Readable(e.subject, room));
    NodeOf(11, body, depth);
    NodeKinds(body, depth);
  }

  lemma NodeKinds(body: Bytes, depth: nat)
    requires depth <= MAX_NODES
    ensures ReadNode(3, body, depth) == ReadCompare(body, depth) && ReadNode(9, body, depth) == ReadArith(body, depth)
    ensures ReadNode(10, body, depth) == ReadIn(body, depth) && ReadNode(11, body, depth) == ReadLike(body, depth)
  {
    hide ReadCompare, ReadArith, ReadIn, ReadLike, Suffix;
  }

  lemma ListReads(tag: byte, parts: Few<Expr>, b: Bytes, suffix: Bytes, depth: nat, ok: bool)
    requires depth <= MAX_NODES && 4 <= tag <= 5
    requires ReadCounted(b, depth) == Expected(ok, parts, suffix)
    ensures ReadNode(tag, b, depth) == Expected(ok, if tag == 4 then And(parts) else Or(parts), suffix)
  {
    hide ReadCounted, Suffix;
  }

  lemma LiteralReads(v: Value, suffix: Bytes, depth: nat)
    requires depth <= MAX_NODES
    ensures ReadExpr(EncodeExpr(Literal(v)) + suffix, depth) == Expected(Within(v, MAX_DEPTH), Literal(v), suffix)
  {
    assert EncodeExpr(Literal(v)) + suffix == [1] + (EncodeValue(v) + suffix);
    hide EncodeValue, EncodeExpr, ReadExpr, DecodeValue, Suffix, Within;
    NodeOf(1, EncodeValue(v) + suffix, depth);
    ValueRoundTrip(v, suffix, 0);
  }

  lemma NameReads(n: Text, suffix: Bytes, depth: nat)
    requires depth <= MAX_NODES
    ensures ReadExpr(EncodeExpr(Name(n)) + suffix, depth) == Ok(Name(n), suffix)
  {
    assert EncodeExpr(Name(n)) + suffix == [2] + (EncodeText(n) + suffix);
    hide EncodeText, EncodeExpr, ReadExpr, ReadText, Suffix;
    NodeOf(2, EncodeText(n) + suffix, depth);
    ReadTextOf(n, suffix);
  }

  lemma TooDeepExpr(b: Bytes)
    ensures ReadExpr(b, MAX_NODES + 1) == Bad
  {
  }

  lemma NoRoom(e: Expr)
    ensures !Readable(e, -1)
  {
  }

  /** An operand, one level down. */
  lemma {:induction false} ChildRoundTrip(e: Expr, suffix: Bytes, depth: nat)
    requires depth <= MAX_NODES
    ensures ReadExpr(EncodeExpr(e) + suffix, depth + 1) == Expected(Readable(e, MAX_NODES - (depth + 1)), e, suffix)
    decreases e, 2
  {
    hide EncodeExpr, ReadExpr, Readable, Suffix;
    if depth < MAX_NODES {
      ExprRoundTrip(e, suffix, depth + 1);
    } else {
      TooDeepExpr(EncodeExpr(e) + suffix);
      NoRoom(e);
    }
  }

  function ExprsAfter(first: Parsed<Expr>, n: nat, depth: nat): Parsed<seq<Expr>>
    requires n > 0 && depth <= MAX_NODES
  {
    var (e, tail) :- first;
    var (es, rest) :- ReadExprs(n - 1, tail, depth);
    Ok([e] + es, rest)
  }

  lemma ExprsNext(n: nat, b: Bytes, depth: nat)
    requires n > 0 && depth <= MAX_NODES
    ensures ReadExprs(n, b, depth) == ExprsAfter(ReadExpr(b, depth + 1), n, depth)
  {
    hide ReadExpr, Suffix;
  }

  lemma ExprsExpected(ok: bool, e: Expr, tail: Bytes, depth: nat, all: bool, es: seq<Expr>, suffix: Bytes)
    requires depth <= MAX_NODES && ReadExprs(|es|, tail, depth) == Expected(all, es, suffix)
    ensures ExprsAfter(Expected(ok, e, tail), |es| + 1, depth) == Expected(ok && all, [e] + es, suffix)
  {
    hide ReadExprs, Suffix;
  }

  lemma AllReadableNext(es: seq<Expr>, room: int)
    requires es != []
    ensures AllReadable(es, room) <==> Readable(es[0], room) && AllReadable(es[1..], room)
  {
    hide Readable;
    assert es == [es[0]] + es[1..];
    assert forall i | 0 <= i < |es| - 1 :: es[1..][i] == es[i + 1];
  }

  lemma ExprsLayout(es: seq<Expr>, suffix: Bytes)
    requires es != []
    ensures EncodeExprs(es) + suffix == EncodeExpr(es[0]) + (EncodeExprs(es[1..]) + suffix)
  {
    hide EncodeExpr;
  }

  lemma ExprsSplit(es: seq<Expr>)
    requires es != []
    ensures es == [es[0]] + es[1..]
  {
  }

  lemma NoneReads(suffix: Bytes, depth: nat)
    requires depth <= MAX_NODES
    ensures ExprsReadBack([], suffix, depth)
  {
    hide ReadExpr, Suffix, Readable, EncodeExpr;
    assert EncodeExprs([]) + suffix == suffix;
  }

  predicate ExprsReadBack(es: seq<Expr>, suffix: Bytes, depth: nat)
    requires depth <= MAX_NODES
  {
    ReadExprs(|es|, EncodeExprs(es) + suffix, depth) == Expected(AllReadable(es, MAX_NODES - (depth + 1)), es, suffix)
  }

  lemma ExprsStep(es: seq<Expr>, suffix: Bytes, depth: nat)
    requires depth <= MAX_NODES && es != [] && ExprsReadBack(es[1..], suffix, depth)
    requires var tail := EncodeExprs(es[1..]) + suffix;
      ReadExpr(EncodeExpr(es[0]) + tail, depth + 1) == Expected(Readable(es[0], MAX_NODES - (depth + 1)), es[0], tail)
    ensures ExprsReadBack(es, suffix, depth)
  {
    var room := MAX_NODES - (depth + 1);
    var e, rest := es[0], es[1..];
    var tail := EncodeExprs(rest) + suffix;
    hide EncodeExpr, EncodeExprs, ReadExpr, ReadExprs, Readable, AllReadable, Expected, Suffix;
    ExprsNext(|es|, EncodeExpr(e) + tail, depth);
    AllReadableNext(es, room);
    ExprsLayout(es, suffix);
    ExprsSplit(es);
    ExprsExpected(Readable(e, room), e, tail, depth, AllReadable(rest, room), rest, suffix);
  }

  lemma {:induction false} ExprsRoundTrip(es: seq<Expr>, suffix: Bytes, depth: nat)
    requires depth <= MAX_NODES
    ensures ExprsReadBack(es, suffix, depth)
    decreases es, 2
  {
    if es == [] {
      NoneReads(suffix, depth);
    } else {
      hide *;
      ExprsRoundTrip(es[1..], suffix, depth);
      ChildRoundTrip(es[0], EncodeExprs(es[1..]) + suffix, depth);
      ExprsStep(es, suffix, depth);
    }
  }

  /** A whole buffer decodes to its expression exactly when that is readable, and never with bytes left over. */
  lemma DecodeWhole(e: Expr, extra: Bytes)
    ensures DecodeExpr(EncodeExpr(e) + extra) == (if extra == [] && Readable(e, MAX_NODES) then Some(e) else None)
  {
    hide ReadExpr, EncodeExpr, Readable, Suffix;
    ExprRoundTrip(e, extra, 0);
  }

  // -- the writer and the reader -------------------------------------------

  lemma ExprsAt(es: seq<Expr>, i: nat)
    requires i < |es|
    ensures EncodeExprs(es[i..]) == EncodeExpr(es[i]) + EncodeExprs(es[i + 1..])
  {
    hide EncodeExpr;
    assert es[i..][1..] == es[i + 1..];
  }

  predicate AllShallow(es: seq<Expr>, room: int) {
    forall i | 0 <= i < |es| :: Shallow(es[i], room)
  }

  lemma ShallowParts(e: Expr, depth: nat)
    requires depth <= MAX_NODES
    ensures var room := MAX_NODES - (depth + 1);
      Shallow(e, MAX_NODES - depth) <==>
        match e
        case Literal(_) => true
        case Name(_) => true
        case Compare(_, l, r) => Shallow(l, room) && Shallow(r, room)
        case Arith(_, l, r) => Shallow(l, room) && Shallow(r, room)
        case And(parts) => AllShallow(parts, room)
        case Or(parts) => AllShallow(parts, room)
        case Not(x) => Shallow(x, room)
        case IsNull(x) => Shallow(x, room)
        case IsNotNull(x) => Shallow(x, room)
        case In(x, list) => Shallow(x, room) && AllShallow(list, room)
        case Like(x, _) => Shallow(x, room)
  {
  }

  lemma Appended(before: Bytes, a: Bytes, b: Bytes, c: Bytes)
    ensures before + a + b + c == before + (a + (b + c))
  {
  }

  class Writer {
    var out: Bytes

    constructor ()
      ensures out == []
    {
      out := [];
    }

    /** Append one node; a refusal can leave part of it behind. */
    method Put(e: Expr, depth: nat) returns (ok: bool)
      modifies this
      ensures ok == Shallow(e, MAX_NODES - depth)
      ensures ok ==> out == old(out) + EncodeExpr(e)
      decreases e, 1
    {
      if depth > MAX_NODES {
        return false;
      }
      ShallowParts(e, depth);
      hide EncodeValue, EncodeText, EncodeExprs, Encode;
      match e
      case Literal(v) => out := out + ([1] + EncodeValue(v)); ok := true;
      case Name(n) => out := out + ([2] + EncodeText(n)); ok := true;
      case Compare(_, _, _) => ok := PutPair(e, depth);
      case Arith(_, _, _) => ok := PutPair(e, depth);
      case And(_) => ok := PutList(e, depth);
      case Or(_) => ok := PutList(e, depth);
      case In(_, _) => ok := PutIn(e, depth);
      case Like(_, _) => ok := PutLike(e, depth);
      case _ => ok := PutUnary(e, depth);
    }

    method PutPair(e: Expr, depth: nat) returns (ok: bool)
      requires depth <= MAX_NODES && (e.Compare? || e.Arith?)
      modifies this
      ensures ok == Shallow(e, MAX_NODES - depth)
      ensures ok ==> out == old(out) + EncodeExpr(e)
      decreases e, 0
    {
      hide *;
      ghost var start := out;
      var op := if e.Compare? then [3, CmpCode(e.cmp)] else [9, ArithCode(e.arith)];
      ShallowParts(e, depth);
      PairBytes(e);
      out := out + op;
      ok := Put(e.lhs, depth + 1);
      if ok {
        ok := Put(e.rhs, depth + 1);
      }
      Appended(start, op, EncodeExpr(e.lhs), EncodeExpr(e.rhs));
    }

    method PutUnary(e: Expr, depth: nat) returns (ok: bool)
      requires depth <= MAX_NODES && (e.Not? || e.IsNull? || e.IsNotNull?)
      modifies this
      ensures ok == Shallow(e, MAX_NODES - depth)
      ensures ok ==> out == old(out) + EncodeExpr(e)
      decreases e, 0
    {
      hide *;
      ghost var start := out;
      ShallowParts(e, depth);
      NodeBytes(e);
      var tag: Bytes := [if e.Not? then 6 else if e.IsNull? then 7 else 8];
      out := out + tag;
      ok := Put(e.inner, depth + 1);
      Appended(start, tag, EncodeExpr(e.inner), []);
    }

    method PutList(e: Expr, depth: nat) returns (ok: bool)
      requires depth <= MAX_NODES && (e.And? || e.Or?)
      modifies this
      ensures ok == Shallow(e, MAX_NODES - depth)
      ensures ok ==> out == old(out) + EncodeExpr(e)
      decreases e, 0
    {
      hide *;
      ghost var start := out;
      ShallowParts(e, depth);
      NodeBytes(e);
      var tag: Bytes := [if e.And? then 4 else 5];
      out := out + tag + Encode(|e.parts|);
      ok := PutEach(e.parts, depth);
      Appended(start, tag, Encode(|e.parts|), EncodeExprs(e.parts));
    }

    method PutIn(e: Expr, depth: nat) returns (ok: bool)
      requires depth <= MAX_NODES && e.In?
      modifies this
      ensures ok == Shallow(e, MAX_NODES - depth)
      ensures ok ==> out == old(out) + EncodeExpr(e)
      decreases e, 0
    {
      hide *;
      ghost var start := out;
      ShallowParts(e, depth);
      NodeBytes(e);
      out := out + [10];
      ok := Put(e.needle, depth + 1);
      if ok {
        out := out + Encode(|e.list|);
        ok := PutEach(e.list, depth);
      }
      Appended(start, [10], EncodeExpr(e.needle), Encode(|e.list|) + EncodeExprs(e.list));
      Appended(start + [10] + EncodeExpr(e.needle), Encode(|e.list|), EncodeExprs(e.list), []);
    }

    method PutLike(e: Expr, depth: nat) returns (ok: bool)
      requires depth <= MAX_NODES && e.Like?
      modifies this
      ensures ok == Shallow(e, MAX_NODES - depth)
      ensures ok ==> out == old(out) + EncodeExpr(e)
      decreases e, 0
    {
      hide *;
      ghost var start := out;
      ShallowParts(e, depth);
      NodeBytes(e);
      out := out + [11];
      ok := Put(e.subject, depth + 1);
      if ok {
        out := out + EncodeText(e.pattern);
      }
      Appended(start, [11], EncodeExpr(e.subject), EncodeText(e.pattern));
    }

    method PutEach(es: seq<Expr>, depth: nat) returns (ok: bool)
      modifies this
      ensures ok == AllShallow(es, MAX_NODES - (depth + 1))
      ensures ok ==> out == old(out) + EncodeExprs(es)
      decreases es, 0
    {
      hide EncodeExpr, EncodeExprs, Shallow;
      for i := 0 to |es|
        invariant AllShallow(es[..i], MAX_NODES - (depth + 1))
        invariant out + EncodeExprs(es[i..]) == old(out) + EncodeExprs(es)
      {
        ExprsAt(es, i);
        ok := Put(es[i], depth + 1);
        if !ok {
          return;
        }
      }
      NoExprs(es);
      ok := true;
    }
  }

  lemma NoExprs(es: seq<Expr>)
    ensures EncodeExprs(es[|es|..]) == [] && es[..|es|] == es && es[0..] == es
  {
  }

  lemma PairBytes(e: Expr)
    requires e.Compare? || e.Arith?
    ensures EncodeExpr(e) == (if e.Compare? then [3, CmpCode(e.cmp)] else [9, ArithCode(e.arith)]) + (EncodeExpr(e.lhs) + EncodeExpr(e.rhs))
  {
    hide CmpCode, ArithCode;
  }

  lemma NodeBytes(e: Expr)
    ensures e.And? || e.Or? ==> EncodeExpr(e) == [if e.And? then 4 else 5] + (Encode(|e.parts|) + EncodeExprs(e.parts))
    ensures e.Not? || e.IsNull? || e.IsNotNull? ==> (EncodeExpr(e) ==
      [if e.Not? then 6 else if e.IsNull? then 7 else 8] + (EncodeExpr(e.inner) + []))
    ensures e.In? ==> EncodeExpr(e) == [10] + (EncodeExpr(e.needle) + (Encode(|e.list|) + EncodeExprs(e.list)))
    ensures e.Like? ==> EncodeExpr(e) == [11] + (EncodeExpr(e.subject) + EncodeText(e.pattern))
  {
    hide Encode, EncodeExprs, EncodeText;
    if e.Not? || e.IsNull? || e.IsNotNull? {
      assert EncodeExpr(e.inner) + [] == EncodeExpr(e.inner);
    }
  }

  /** What is left after `used` bytes of a suffix. */
  lemma Advance(buf: Bytes, pos: nat, rest: Bytes)
    requires pos <= |buf| && Suffix(rest, buf[pos..])
    ensures pos <= |buf| - |rest| <= |buf| && buf[|buf| - |rest|..] == rest
  {
  }

  /** Items read so far, and then the ones still to come. */
  function Preceded(front: seq<Expr>, tail: Parsed<seq<Expr>>): Parsed<seq<Expr>> {
    match tail case Bad => Bad case Ok(es, rest) => Ok(front + es, rest)
  }

  lemma PrecededNext(front: seq<Expr>, n: nat, b: Bytes, depth: nat)
    requires n > 0 && depth <= MAX_NODES
    ensures var first := ReadExpr(b, depth + 1);
      Preceded(front, ReadExprs(n, b, depth)) ==
        if first.Bad? then Bad else Preceded(front + [first.value], ReadExprs(n - 1, first.rest, depth))
  {
    hide ReadExpr, Suffix;
    ExprsNext(n, b, depth);
    var first := ReadExpr(b, depth + 1);
    if first.Ok? {
      var tail := ReadExprs(n - 1, first.rest, depth);
      if tail.Ok? {
        assert front + ([first.value] + tail.value) == front + [first.value] + tail.value;
      }
    }
  }

  lemma PrecededEnds(front: seq<Expr>, n: nat, b: Bytes, depth: nat)
    requires depth <= MAX_NODES
    ensures Preceded([], ReadExprs(n, b, depth)) == ReadExprs(n, b, depth)
    ensures Preceded(front, ReadExprs(0, b, depth)) == Ok(front, b)
  {
    hide ReadExpr, Suffix;
    var all := ReadExprs(n, b, depth);
    if all.Ok? {
      assert [] + all.value == all.value;
    }
    assert front + [] == front;
  }

  class Reader {
    const buf: Bytes
    var pos: nat

    constructor (buf: Bytes)
      ensures this.buf == buf && Valid() && Left() == buf
    {
      this.buf := buf;
      pos := 0;
    }

    predicate Valid()
      reads this
    {
      pos <= |buf|
    }

    function Left(): Bytes
      requires Valid()
      reads this
    {
      buf[pos..]
    }

    /** The reader did what `p` says of the bytes it had left. */
    predicate Took<T(==)>(p: Parsed<T>, r: Option<T>)
      reads this
    {
      && Valid()
      && (p.Bad? ==> r == None)
      && (p.Ok? ==> r == Some(p.value) && Left() == p.rest)
    }

    method Byte() returns (r: Option<byte>)
      requires Valid()
      modifies this
      ensures Took(ReadByte(old(Left())), r)
    {
      if pos >= |buf| {
        return None;
      }
      r := Some(buf[pos]);
      pos := pos + 1;
    }

    method Number() returns (r: Option<u64>)
      requires Valid()
      modifies this
      ensures Took(ReadVarint(old(Left())), r)
    {
      hide ReadGroups;
      var p := ReadVarint(buf[pos..]);
      match p
      case Bad => r := None;
      case Ok(v, rest) =>
        Advance(buf, pos, rest);
        r := Some(v);
        pos := |buf| - |rest|;
    }

    method Str() returns (r: Option<Text>)
      requires Valid()
      modifies this
      ensures Took(ReadText(old(Left())), r)
    {
      hide ReadVarint, Suffix;
      var n := Number();
      if n == None || n.value > |buf| - pos {
        return None;
      }
      var raw := buf[pos..pos + n.value];
      assert raw == Left()[..n.value] && buf[pos + n.value..] == Left()[n.value..];
      if !ValidUtf8(raw) {
        return None;
      }
      r := Some(raw);
      pos := pos + n.value;
    }

    method Constant() returns (r: Option<Value>)
      requires Valid()
      modifies this
      ensures Took(DecodeValue(old(Left()), 0), r)
    {
      var p := DecodeValue(buf[pos..], 0);
      hide DecodeValue;
      match p
      case Bad => r := None;
      case Ok(v, rest) =>
        Advance(buf, pos, rest);
        r := Some(v);
        pos := |buf| - |rest|;
    }

    /** A count of operands, checked against what is left before anything is read for it. */
    method Count() returns (r: Option<u64>)
      requires Valid()
      modifies this
      ensures Took(ReadCount(old(Left())), r)
    {
      hide ReadVarint, Suffix;
      r := Number();
      if r.Some? && r.value > |buf| - pos {
        r := None;
      }
    }

    method Get(depth: nat) returns (r: Option<Expr>)
      requires Valid()
      modifies this
      ensures Took(ReadExpr(old(Left()), depth), r)
      decreases MAX_NODES + 1 - depth, 3, 0
    {
      if depth > MAX_NODES {
        return None;
      }
      ghost var b := Left();
      var tag := Byte();
      if tag == None {
        return None;
      }
      assert b == [b[0]] + Left();
      NodeOf(b[0], Left(), depth);
      r := GetNode(tag.value, depth);
    }

    method GetNode(tag: byte, depth: nat) returns (r: Option<Expr>)
      requires Valid() && depth <= MAX_NODES
      modifies this
      ensures Took(ReadNode(tag, old(Left()), depth), r)
      decreases MAX_NODES + 1 - depth, 2, 0
    {
      hide DecodeValue, ReadText, ReadCompare, ReadArith, ReadCounted, ReadExpr, ReadIn, ReadLike, Suffix;
      match tag
      case 1 =>
        var v := Constant();
        r := if v == None then None else Some(Literal(v.value));
      case 2 =>
        var n := Str();
        r := if n == None then None else Some(Name(n.value));
      case 3 =>
        r := GetCompare(depth);
      case 4 =>
        var parts := GetCounted(depth);
        r := if parts == None then None else Some(And(parts.value));
      case 5 =>
        var parts := GetCounted(depth);
        r := if parts == None then None else Some(Or(parts.value));
      case 6 =>
        var x := Get(depth + 1);
        r := if x == None then None else Some(Not(x.value));
      case 7 =>
        var x := Get(depth + 1);
        r := if x == None then None else Some(IsNull(x.value));
      case 8 =>
        var x := Get(depth + 1);
        r := if x == None then None else Some(IsNotNull(x.value));
      case 9 =>
        r := GetArith(depth);
      case 10 =>
        r := GetIn(depth);
      case 11 =>
        r := GetLike(depth);
      case _ =>
        r := None;
    }

    method GetCompare(depth: nat) returns (r: Option<Expr>)
      requires Valid() && depth <= MAX_NODES
      modifies this
      ensures Took(ReadCompare(old(Left()), depth), r)
      decreases MAX_NODES + 1 - depth, 1, 0
    {
      hide ReadExpr, CmpFrom, Suffix;
      var code := Byte();
      if code == None || CmpFrom(code.value) == None {
        return None;
      }
      var lhs := Get(depth + 1);
      if lhs == None {
        return None;
      }
      var rhs := Get(depth + 1);
      r := if rhs == None then None else Some(Compare(CmpFrom(code.value).value, lhs.value, rhs.value));
    }

    method GetArith(depth: nat) returns (r: Option<Expr>)
      requires Valid() && depth <= MAX_NODES
      modifies this
      ensures Took(ReadArith(old(Left()), depth), r)
      decreases MAX_NODES + 1 - depth, 1, 0
    {
      hide ReadExpr, ArithFrom, Suffix;
      var code := Byte();
      if code == None || ArithFrom(code.value) == None {
        return None;
      }
      var lhs := Get(depth + 1);
      if lhs == None {
        return None;
      }
      var rhs := Get(depth + 1);
      r := if rhs == None then None else Some(Arith(ArithFrom(code.value).value, lhs.value, rhs.value));
    }

    method GetIn(depth: nat) returns (r: Option<Expr>)
      requires Valid() && depth <= MAX_NODES
      modifies this
      ensures Took(ReadIn(old(Left()), depth), r)
      decreases MAX_NODES + 1 - depth, 1, 1
    {
      hide ReadExpr, ReadCounted, Suffix;
      var needle := Get(depth + 1);
      if needle == None {
        return None;
      }
      var list := GetCounted(depth);
      r := if list == None then None else Some(In(needle.value, list.value));
    }

    method GetLike(depth: nat) returns (r: Option<Expr>)
      requires Valid() && depth <= MAX_NODES
      modifies this
      ensures Took(ReadLike(old(Left()), depth), r)
      decreases MAX_NODES + 1 - depth, 1, 0
    {
      hide ReadExpr, ReadText, Suffix;
      var subject := Get(depth + 1);
      if subject == None {
        return None;
      }
      var pattern := Str();
      r := if pattern == None then None else Some(Like(subject.value, pattern.value));
    }

    method GetCounted(depth: nat) returns (r: Option<Few<Expr>>)
      requires Valid() && depth <= MAX_NODES
      modifies this
      ensures Took(ReadCounted(old(Left()), depth), r)
      decreases MAX_NODES + 1 - depth, 1, 0
    {
      hide ReadExpr, ReadExprs, ReadCount, Suffix;
      var n := Count();
      if n == None {
        return None;
      }
      r := GetEach(n.value, depth);
    }

    method GetEach(n: u64, depth: nat) returns (r: Option<Few<Expr>>)
      requires Valid() && depth <= MAX_NODES
      modifies this
      ensures Took<seq<Expr>>(ReadExprs(n, old(Left()), depth), r)
      decreases MAX_NODES + 1 - depth, 0, 0
    {
      hide ReadExpr, Suffix;
      var parts: seq<Expr> := [];
      PrecededEnds([], n, Left(), depth);
      for i := 0 to n
        invariant Valid() && |parts| == i
        invariant ReadExprs(n, old(Left()), depth) == Preceded(parts, ReadExprs(n - i, Left(), depth))
      {
        PrecededNext(parts, n - i, Left(), depth);
        var e := Get(depth + 1);
        if e == None {
          return None;
        }
        parts := parts + [e.value];
      }
      PrecededEnds(parts, 0, Left(), depth);
      r := Some(parts);
    }
  }

  method Encoded(e: Expr) returns (r: Option<Bytes>)
    ensures r == if Shallow(e, MAX_NODES) then Some(EncodeExpr(e)) else None
  {
    var w := new Writer();
    var ok := w.Put(e, 0);
    assert [] + EncodeExpr(e) == EncodeExpr(e);
    r := if ok then Some(w.out) else None;
  }

  method Decoded(b: Bytes) returns (r: Option<Expr>)
    ensures r == DecodeExpr(b)
  {
    hide ReadExpr, Suffix;
    var reader := new Reader(b);
    r := reader.Get(0);
    assert reader.pos == |b| <==> reader.Left() == [];
    if reader.pos != |b| {
      r := None;
    }
  }
}
