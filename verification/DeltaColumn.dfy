/**
 * An integer column with two physical forms: one slot a row, or zigzag-varint
 * offsets from the first value with a byte directory every 32 rows. It moves
 * between the forms in place, and must read back what was pushed in both.
 */
module DeltaColumn {
  import opened Basics
  import opened Varint

  const BLOCK: nat := 32
  const MIN_ROWS: nat := 128
  const TWO32: int := 0x1_0000_0000

  type Cell = Option<i64>

  /** What a row holds once it is stored as an offset from `first`: an offset of 2^63 is lost. */
  function Kept(first: i64, c: Cell): Cell {
    if c.Some? && Wrap(c.value - first) == -TWO63 then None else c
  }

  function KeptAll(first: i64, cells: seq<Cell>): (r: seq<Cell>)
    ensures |r| == |cells| && forall i :: 0 <= i < |cells| ==> r[i] == Kept(first, cells[i])
  {
    seq(|cells|, i requires 0 <= i < |cells| => Kept(first, cells[i]))
  }

  /** Whether every present value is at least the present values before it. */
  predicate NonDecreasing(cells: seq<Cell>) {
    forall i, j :: 0 <= i < j < |cells| && cells[i].Some? && cells[j].Some? ==> cells[i].value <= cells[j].value
  }

  /** The first present value, or zero. */
  function FirstOf(cells: seq<Cell>): i64 {
    if cells == [] then 0
    else if cells[0].Some? then cells[0].value
    else FirstOf(cells[1..])
  }

  /** The last present value, or `default`. */
  function LastOf(cells: seq<Cell>, default: i64): i64 {
    if cells == [] then default
    else if cells[|cells| - 1].Some? then cells[|cells| - 1].value
    else LastOf(cells[..|cells| - 1], default)
  }

  predicate PowerOfTwo(n: nat)
    decreases n
  {
    if n <= 1 then n == 1 else n % 2 == 0 && PowerOfTwo(n / 2)
  }

  // -- the byte form -------------------------------------------------------

  /** One row: a zero byte for null, else the offset shifted up by one - with the wrap the machine adds. */
  function EncodeCell(first: i64, c: Cell): Bytes {
    match c
    case None => [0]
    case Some(v) => Encode(Code(first, v))
  }

  function Code(first: i64, v: i64): u64 {
    (Zigzag(Wrap(v - first)) + 1) % TWO64
  }

  function DecodeCell(first: i64, z: nat): Cell
    requires z < TWO64
  {
    if z == 0 then None else Some(Wrap(first + Unzigzag(z - 1)))
  }

  function EncodeRows(first: i64, cells: seq<Cell>): Bytes {
    if cells == [] then []
    else EncodeRows(first, cells[..|cells| - 1]) + EncodeCell(first, cells[|cells| - 1])
  }

  /** A row reads back exactly as it was kept, whatever follows it. */
  lemma CellRoundTrip(first: i64, c: Cell, suffix: Bytes)
    ensures var (z, n) := Read(EncodeCell(first, c) + suffix);
      && z < TWO64 && n == |EncodeCell(first, c)|
      && DecodeCell(first, z) == Kept(first, c)
    ensures EncodeCell(first, c)[0] == 0 <==> Kept(first, c).None?
    ensures 0 < |EncodeCell(first, c)| <= 10
  {
    hide Encode;
    hide Read;
    hide Kept;
    hide DecodeCell;
    hide Code;
    ZeroEncodes();
    var z := if c.None? then 0 else Code(first, c.value);
    ReadEncoded(z, suffix);
    EncodeShort(z);
    if c.Some? {
      CodeRoundTrip(first, c.value);
    } else {
      assert DecodeCell(first, 0) == Kept(first, None) == None by { NullRoundTrip(first); }
    }
  }

  lemma NullRoundTrip(first: i64)
    ensures DecodeCell(first, 0) == Kept(first, None) == None
  {
  }

  /** The code of a value is zero - the null - exactly when its offset wraps to -2^63. */
  lemma CodeRoundTrip(first: i64, v: i64)
    ensures DecodeCell(first, Code(first, v)) == Kept(first, Some(v))
    ensures Code(first, v) == 0 <==> Kept(first, Some(v)) == None
  {
    var d := Wrap(v - first);
    ZigzagRoundTrip(d);
    WrapBack(first, v);
    hide Wrap;
    hide Zigzag;
    hide Unzigzag;
  }

  lemma ZeroEncodes()
    ensures Encode(0) == [0]
  {
  }

  lemma WrapBack(first: i64, v: i64)
    ensures Wrap(first + Wrap(v - first)) == v
  {
    var d := Wrap(v - first);
    assert (v - first - d) % TWO64 == 0;
    WrapUnique(first + d, v);
  }

  lemma WrapUnique(x: int, v: i64)
    requires (v - x) % TWO64 == 0
    ensures Wrap(x) == v
  {
    var r := Wrap(x);
    var a, b := (v - x) / TWO64, (x - r) / TWO64;
    assert v - r == TWO64 * (a + b);
  }

  lemma {:induction false} EncodeRowsSplit(first: i64, cells: seq<Cell>, i: nat) returns (rest: Bytes)
    requires i < |cells|
    ensures EncodeRows(first, cells[..i + 1]) == EncodeRows(first, cells[..i]) + EncodeCell(first, cells[i])
    ensures EncodeRows(first, cells) == EncodeRows(first, cells[..i + 1]) + rest
    decreases |cells|
  {
    hide EncodeCell;
    assert cells[..i + 1][..i] == cells[..i];
    if i + 1 == |cells| {
      assert cells[..i + 1] == cells;
      rest := [];
    } else {
      var n := |cells| - 1;
      rest := EncodeRowsSplit(first, cells[..n], i);
      assert cells[..n][..i] == cells[..i] && cells[..n][..i + 1] == cells[..i + 1];
      rest := rest + EncodeCell(first, cells[n]);
    }
  }

  lemma {:induction false} EncodeRowsKept(first: i64, cells: seq<Cell>)
    ensures EncodeRows(first, KeptAll(first, cells)) == EncodeRows(first, cells)
  {
    if cells != [] {
      var n := |cells| - 1;
      EncodeRowsKept(first, cells[..n]);
      assert KeptAll(first, cells)[..n] == KeptAll(first, cells[..n]);
      CellRoundTrip(first, cells[n], []);
      if Kept(first, cells[n]) != cells[n] {
        CodeRoundTrip(first, cells[n].value);
        ZeroEncodes();
      }
    }
  }

  /** A read starting at row `i`'s offset yields row `i` and stops at row `i + 1`'s. */
  lemma ReadRow(first: i64, cells: seq<Cell>, i: nat)
    requires i < |cells|
    ensures var at, all := |EncodeRows(first, cells[..i])|, EncodeRows(first, cells);
      && at < |all|
      && var (z, n) := Read(all[at..]);
         && z < TWO64 && DecodeCell(first, z) == Kept(first, cells[i])
         && at + n == |EncodeRows(first, cells[..i + 1])| <= |all| && 0 < n <= 10
  {
    hide Read;
    hide EncodeCell;
    hide EncodeRows;
    hide DecodeCell;
    hide Kept;
    var rest := EncodeRowsSplit(first, cells, i);
    CellRoundTrip(first, cells[i], rest);
    var before, code := EncodeRows(first, cells[..i]), EncodeCell(first, cells[i]);
    assert (before + code + rest)[|before|..] == code + rest;
  }

  // -- what a column means -------------------------------------------------

  datatype Int = I64(i: i64) | U64(u: u64)

  /** `as i64`. */
  function Raw(v: Int): i64 {
    match v case I64(n) => n case U64(n) => Wrap(n)
  }

  /** How a column hands a stored value back. */
  function Present(unsigned: bool, c: Cell): Option<Int> {
    match c
    case None => None
    case Some(v) => Some(if unsigned then U64(v % TWO64) else I64(v))
  }

  datatype Shape = PlainShape | DeltaShape(first: i64, last: i64)

  /** A column's abstract state: its form, and what each row holds. */
  datatype State = State(shape: Shape, cells: seq<Cell>)

  predicate Compressible(cells: seq<Cell>) {
    PowerOfTwo(|cells|) && |cells| >= MIN_ROWS && NonDecreasing(cells)
  }

  /** The conversion attempted after every integer pushed onto a plain column. */
  function Compressed(enabled: bool, cells: seq<Cell>): State {
    if enabled && Compressible(cells) then
      var first := FirstOf(cells);
      State(DeltaShape(first, LastOf(cells, first)), KeptAll(first, cells))
    else State(PlainShape, cells)
  }

  /** An unsigned plain column refuses a signed value; every other column takes any integer. */
  function PushedPlain(unsigned: bool, enabled: bool, cells: seq<Cell>, v: Int): State {
    if unsigned && v.I64? then State(PlainShape, cells + [None])
    else Compressed(enabled, cells + [Some(Raw(v))])
  }

  function Pushed(unsigned: bool, enabled: bool, s: State, v: Int): State {
    if s.shape.DeltaShape? && Raw(v) >= s.shape.last then
      State(s.shape.(last := Raw(v)), s.cells + [Kept(s.shape.first, Some(Raw(v)))])
    else PushedPlain(unsigned, enabled, s.cells, v)
  }

  // -- runs ----------------------------------------------------------------

  datatype Move = Push(v: Option<Int>, enabled: bool) | Disable

  function After(unsigned: bool, s: State, m: Move): State {
    match m
    case Push(None, _) => State(s.shape, s.cells + [None])
    case Push(Some(v), enabled) => Pushed(unsigned, enabled, s, v)
    case Disable => State(PlainShape, s.cells)
  }

  function Run(unsigned: bool, moves: seq<Move>): State {
    if moves == [] then State(PlainShape, [])
    else After(unsigned, Run(unsigned, moves[..|moves| - 1]), moves[|moves| - 1])
  }

  /** The values a run pushes, in order. */
  function Values(moves: seq<Move>): seq<Option<Int>> {
    if moves == [] then []
    else
      var m := moves[|moves| - 1];
      Values(moves[..|moves| - 1]) + (if m.Push? then [m.v] else [])
  }

  function Raws(values: seq<Option<Int>>): (cells: seq<Cell>)
    ensures |cells| == |values|
  {
    seq(|values|, i requires 0 <= i < |values| => match values[i] case None => None case Some(v) => Some(Raw(v)))
  }

  /** One variant per column: every value matches it. */
  predicate Uniform(unsigned: bool, values: seq<Option<Int>>) {
    forall v | v in values && v.Some? :: v.value.U64? == unsigned
  }

  /** No value lies exactly 2^63 above the first present one, as signed integers. */
  predicate InReach(cells: seq<Cell>) {
    forall c | c in cells && c.Some? :: c.value - FirstOf(cells) != TWO63
  }

  /** An integer of the column's own variant survives the cast there and back. */
  lemma PresentRaw(v: Int)
    ensures Present(v.U64?, Some(Raw(v))) == Some(v)
  {
    if v.U64? {
      assert (v.u - Wrap(v.u)) % TWO64 == 0;
      var r := Wrap(v.u);
      assert r % TWO64 == v.u by {
        var q := (v.u - r) / TWO64;
        assert v.u == r + q * TWO64;
      }
    }
  }

  lemma {:induction false} FirstOfPrefix(cells: seq<Cell>, n: nat)
    requires n <= |cells|
    ensures (forall i :: 0 <= i < n ==> cells[i].None?) || FirstOf(cells[..n]) == FirstOf(cells)
    ensures (forall i :: 0 <= i < n ==> cells[i].None?) ==> FirstOf(cells[..n]) == 0
  {
    if n > 0 && cells[0].None? {
      FirstOfPrefix(cells[1..], n - 1);
      assert cells[..n][1..] == cells[1..][..n - 1];
      assert forall i :: 0 <= i < n - 1 ==> cells[1..][i] == cells[i + 1];
    }
  }

  lemma {:induction false} LastOfSorted(cells: seq<Cell>, default: i64)
    requires NonDecreasing(cells)
    ensures forall c | c in cells && c.Some? :: c.value <= LastOf(cells, default)
    ensures LastOf(cells, default) == default || Some(LastOf(cells, default)) in cells
  {
    if cells != [] {
      var n := |cells| - 1;
      if cells[n].None? {
        LastOfSorted(cells[..n], default);
        assert forall c | c in cells && c.Some? :: c in cells[..n];
      }
    }
  }

  lemma {:induction false} FirstOfSorted(cells: seq<Cell>)
    requires NonDecreasing(cells)
    ensures forall c | c in cells && c.Some? :: FirstOf(cells) <= c.value
  {
    if cells != [] && cells[0].None? {
      FirstOfSorted(cells[1..]);
      assert forall c | c in cells && c.Some? :: c in cells[1..];
    }
  }

  /**
   * A delta column's base is the column's first present value, or zero while
   * nothing present has been seen - and then only non-negative values follow.
   */
  ghost predicate Based(s: State) {
    s.shape.DeltaShape? ==>
      && s.shape.first <= s.shape.last
      && (s.shape.first == FirstOf(s.cells) || s.shape.first == 0)
      && (forall c | c in s.cells && c.Some? :: s.shape.first <= c.value)
  }

  /** In a delta column a value survives exactly when it is not 2^63 above the base. */
  lemma KeptInReach(first: i64, v: i64)
    requires first <= v
    ensures Kept(first, Some(v)) == Some(v) <==> v - first != TWO63
  {
    var d := Wrap(v - first);
    assert (v - first - d) % TWO64 == 0;
    if v - first == TWO63 {
      WrapUnique(v - first, -TWO63);
    }
  }

  lemma CompressedInReach(enabled: bool, cells: seq<Cell>)
    requires InReach(cells)
    ensures Compressed(enabled, cells).cells == cells && Based(Compressed(enabled, cells))
  {
    if enabled && Compressible(cells) {
      var first := FirstOf(cells);
      FirstOfSorted(cells);
      LastOfSorted(cells, first);
      hide Kept;
      forall i | 0 <= i < |cells| ensures Kept(first, cells[i]) == cells[i] {
        assert cells[i] in cells;
        if cells[i].Some? { KeptInReach(first, cells[i].value); }
      }
    }
  }

  lemma InReachPrefix(cells: seq<Cell>, n: nat)
    requires n <= |cells| && InReach(cells)
    ensures InReach(cells[..n])
  {
    FirstOfPrefix(cells, n);
  }

  lemma AfterInReach(unsigned: bool, s: State, v: Int, enabled: bool)
    requires Based(s) && InReach(s.cells + [Some(Raw(v))]) && v.U64? == unsigned
    ensures var s' := Pushed(unsigned, enabled, s, v);
      s'.cells == s.cells + [Some(Raw(v))] && Based(s')
  {
    var n, more := Raw(v), s.cells + [Some(Raw(v))];
    if s.shape.DeltaShape? && n >= s.shape.last {
      FirstOfPrefix(more, |s.cells|);
      assert more[..|s.cells|] == s.cells;
      assert more[|s.cells|] in more;
      assert s.shape.first == FirstOf(more) || s.shape.first == 0 by {
        if s.shape.first != 0 { assert s.shape.first == FirstOf(s.cells); }
      }
      KeptInReach(s.shape.first, n);
    } else {
      CompressedInReach(enabled, more);
    }
  }

  /** Every run of one variant, within reach, holds exactly the values pushed. */
  lemma {:induction false} RunHolds(unsigned: bool, moves: seq<Move>)
    requires Uniform(unsigned, Values(moves)) && InReach(Raws(Values(moves)))
    ensures Run(unsigned, moves).cells == Raws(Values(moves)) && Based(Run(unsigned, moves))
  {
    if moves != [] {
      var n := |moves| - 1;
      var before, values, all := moves[..n], Values(moves[..n]), Raws(Values(moves));
      assert Raws(values) == all[..|values|];
      InReachPrefix(all, |values|);
      RunHolds(unsigned, before);
      match moves[n]
      case Push(None, _) =>
        assert all == Raws(values) + [None];
        FirstOfPrefix(all, |values|);
      case Push(Some(v), enabled) =>
        assert Some(v) in Values(moves);
        assert all == Raws(values) + [Some(Raw(v))];
        AfterInReach(unsigned, Run(unsigned, before), v, enabled);
      case Disable =>
        assert all == Raws(values);
    }
  }

  /** Reading any row back after any run - through compression, demotion and disabling - is what was pushed. */
  lemma RunReadsBack(unsigned: bool, moves: seq<Move>, row: nat)
    requires Uniform(unsigned, Values(moves)) && InReach(Raws(Values(moves)))
    requires row < |Values(moves)|
    ensures |Run(unsigned, moves).cells| == |Values(moves)|
    ensures Present(unsigned, Run(unsigned, moves).cells[row]) == Values(moves)[row]
  {
    RunHolds(unsigned, moves);
    var v := Values(moves)[row];
    if v.Some? {
      assert v in Values(moves);
      PresentRaw(v.value);
    }
  }

  lemma {:induction false} PlainWhileShort(unsigned: bool, moves: seq<Move>)
    requires |Values(moves)| < MIN_ROWS
    ensures Run(unsigned, moves).shape == PlainShape && |Run(unsigned, moves).cells| == |Values(moves)|
  {
    if moves != [] { PlainWhileShort(unsigned, moves[..|moves| - 1]); }
  }

  const LOWEST := Push(Some(I64(-TWO63)), true)

  lemma {:induction false} LowestValues(n: nat)
    ensures Values(seq(n, _ => LOWEST)) == seq(n, _ => Some(I64(-TWO63)))
  {
    if n > 0 {
      LowestValues(n - 1);
      assert seq(n, _ => LOWEST)[..n - 1] == seq(n - 1, _ => LOWEST);
    }
  }

  /** Out of reach: 128 lowest integers, then zero - in order, and read back as a null. */
  lemma OutOfReachIsLost()
    ensures var moves := seq(128, _ => LOWEST) + [Push(Some(I64(0)), true)];
      |Run(false, moves).cells| == 129 && Run(false, moves).cells[128] == None
  {
    var full := seq(128, _ => LOWEST);
    var moves := full + [Push(Some(I64(0)), true)];
    assert moves[..128] == full;
    FullOfLowest();
    hide Run, Compressible;
    KeptInReach(-TWO63, 0);
    RunNext(false, full, Push(Some(I64(0)), true));
  }

  lemma RunNext(unsigned: bool, moves: seq<Move>, m: Move)
    ensures Run(unsigned, moves + [m]) == After(unsigned, Run(unsigned, moves), m)
  {
    hide After;
    assert (moves + [m])[..|moves|] == moves;
  }

  /** The 128th lowest integer brings the delta form about. */
  lemma FullOfLowest()
    ensures Run(false, seq(128, _ => LOWEST)).shape == DeltaShape(-TWO63, -TWO63)
    ensures |Run(false, seq(128, _ => LOWEST)).cells| == 128
  {
    var short := seq(127, _ => LOWEST);
    LowestValues(127);
    PlainWhileShort(false, short);
    RunHolds(false, short);
    RunNext(false, short, LOWEST);
    assert short + [LOWEST] == seq(128, _ => LOWEST);
    var cells := Run(false, short).cells + [Some(-TWO63)];
    assert cells == seq(128, _ => Some(-TWO63));
    LowestCompresses(cells);
    hide Run, Compressible, Values;
  }

  lemma LowestCompresses(cells: seq<Cell>)
    requires cells == seq(128, _ => Some(-TWO63))
    ensures Compressed(true, cells).shape == DeltaShape(-TWO63, -TWO63) && |Compressed(true, cells).cells| == 128
  {
    assert PowerOfTwo(128) by { assert PowerOfTwo(4) && PowerOfTwo(16) && PowerOfTwo(64); }
    assert FirstOf(cells) == -TWO63 == LastOf(cells, -TWO63);
    hide PowerOfTwo;
  }

  // -- the column ----------------------------------------------------------

  datatype Form =
    | Plain(cells: seq<Cell>)
    | Delta(first: i64, last: i64, rows: nat, blockEnds: seq<nat>, bytes: Bytes)

  /**
   * The byte directory: entry `i` is where row 32(i + 1) starts, as the 32 bits
   * it is stored in.
   */
  ghost predicate Directory(first: i64, cells: seq<Cell>, blockEnds: seq<nat>) {
    && |blockEnds| == |cells| / BLOCK
    && forall i :: 0 <= i < |blockEnds| ==> blockEnds[i] == Offset(first, cells, BLOCK * (i + 1)) % TWO32
  }

  /** The byte offset of row `i`. */
  ghost function Offset(first: i64, cells: seq<Cell>, i: nat): nat
    requires i <= |cells|
  {
    |EncodeRows(first, cells[..i])|
  }

  lemma {:induction false} OffsetMonotone(first: i64, cells: seq<Cell>, i: nat, j: nat)
    requires i <= j <= |cells|
    ensures Offset(first, cells, i) <= Offset(first, cells, j) <= |EncodeRows(first, cells)|
    decreases j - i
  {
    if j < |cells| { var _ := EncodeRowsSplit(first, cells, j); } else { assert cells[..j] == cells; }
    if i < j {
      OffsetMonotone(first, cells, i, j - 1);
      var _ := EncodeRowsSplit(first, cells, j - 1);
    }
  }

  lemma DirectoryNext(first: i64, cells: seq<Cell>, c: Cell, blockEnds: seq<nat>)
    requires Directory(first, cells, blockEnds)
    ensures var more := cells + [c];
      && EncodeRows(first, more) == EncodeRows(first, cells) + EncodeCell(first, c)
      && Directory(first, more,
           if |more| % BLOCK == 0 then blockEnds + [|EncodeRows(first, more)| % TWO32] else blockEnds)
  {
    var more := cells + [c];
    hide EncodeCell;
    assert more[..|cells|] == cells && more[..|more|] == more;
    forall i: nat | i <= |cells| ensures Offset(first, more, i) == Offset(first, cells, i) {
      assert more[..i] == cells[..i];
    }
  }

  ghost predicate Represents(form: Form, cells: seq<Cell>) {
    match form
    case Plain(c) => c == cells
    case Delta(first, last, rows, blockEnds, bytes) =>
      && rows == |cells|
      && bytes == EncodeRows(first, cells)
      && Directory(first, cells, blockEnds)
      && KeptAll(first, cells) == cells
  }

  // -- when, and where -----------------------------------------------------

  function TwoTo(k: nat): (p: nat)
    ensures p > 0
  {
    if k == 0 then 1 else 2 * TwoTo(k - 1)
  }

  lemma {:induction false} PowersOfTwo(n: nat) returns (k: nat)
    ensures PowerOfTwo(n) ==> n == TwoTo(k)
  {
    k := 0;
    if n > 1 && PowerOfTwo(n) {
      k := PowersOfTwo(n / 2);
      assert n == 2 * (n / 2);
      k := k + 1;
    }
  }

  lemma {:induction false} TwoToPower(k: nat)
    ensures PowerOfTwo(TwoTo(k))
  {
    if k > 0 {
      TwoToPower(k - 1);
      assert TwoTo(k) / 2 == TwoTo(k - 1);
    }
  }

  lemma {:induction false} TwoToGrows(j: nat, k: nat)
    ensures j < k ==> TwoTo(j) < TwoTo(k)
  {
    if j < k {
      TwoToGrows(j, k - 1);
    }
  }

  lemma SevenDoublings(k: nat)
    ensures TwoTo(k + 7) == 128 * TwoTo(k)
  {
    assert TwoTo(k + 1) == 2 * TwoTo(k) && TwoTo(k + 2) == 2 * TwoTo(k + 1);
    assert TwoTo(k + 3) == 2 * TwoTo(k + 2) && TwoTo(k + 4) == 2 * TwoTo(k + 3);
    assert TwoTo(k + 5) == 2 * TwoTo(k + 4) && TwoTo(k + 6) == 2 * TwoTo(k + 5);
    assert TwoTo(k + 7) == 2 * TwoTo(k + 6);
  }

  lemma FromRow128(n: nat)
    ensures PowerOfTwo(n) && n >= 128 <==> exists k: nat :: n == 128 * TwoTo(k)
  {
    SevenDoublings(0);
    assert TwoTo(7) == 128;
    hide PowerOfTwo, TwoTo;
    if PowerOfTwo(n) && n >= 128 {
      var k := PowersOfTwo(n);
      TwoToGrows(k, 7);
      SevenDoublings(k - 7);
    }
    if k: nat :| n == 128 * TwoTo(k) {
      SevenDoublings(k);
      TwoToPower(k + 7);
    }
  }

  /**
   * A plain column takes the delta form at a push exactly when that is enabled, the value is one
   * the column stores, the rows are then 128, 256 and so on doubling, and no present value is
   * below an earlier one.
   */
  lemma TurnsDelta(unsigned: bool, enabled: bool, s: State, v: Int)
    requires s.shape.PlainShape?
    ensures var cells := s.cells + [Some(Raw(v))];
      Pushed(unsigned, enabled, s, v).shape.DeltaShape? <==>
        && enabled && (unsigned ==> v.U64?)
        && (exists k: nat :: |cells| == 128 * TwoTo(k))
        && (forall i, j | 0 <= i < j < |cells| && cells[i].Some? && cells[j].Some? :: cells[i].value <= cells[j].value)
  {
    FromRow128(|s.cells| + 1);
    hide PowerOfTwo, TwoTo, FirstOf, LastOf, KeptAll;
  }

  /** The directory holds where each block of 32 rows ends, as 32 bits. */
  lemma BlocksEnd(form: Form, cells: seq<Cell>, block: nat)
    requires form.Delta? && Represents(form, cells) && 32 * block + 32 <= |cells|
    ensures |form.blockEnds| == |cells| / 32
    ensures form.blockEnds[block] == |EncodeRows(form.first, cells[..32 * block + 32])| % 0x1_0000_0000
  {
    assert BLOCK * (block + 1) == 32 * block + 32;
  }

  /** Reading row `row` out of a slice that reaches at least to its end. */
  lemma ReadSlice(first: i64, cells: seq<Cell>, row: nat, hi: nat)
    requires row < |cells|
    requires Offset(first, cells, row + 1) <= hi <= |EncodeRows(first, cells)|
    ensures var lo, all := Offset(first, cells, row), EncodeRows(first, cells);
      && lo < hi
      && (all[lo] == 0 <==> Kept(first, cells[row]).None?)
      && var (z, _) := Read(all[lo..hi]); z < TWO64 && DecodeCell(first, z) == Kept(first, cells[row])
  {
    hide Read;
    hide EncodeCell;
    hide EncodeRows;
    hide DecodeCell;
    hide Kept;
    var rest := EncodeRowsSplit(first, cells, row);
    var before, code := EncodeRows(first, cells[..row]), EncodeCell(first, cells[row]);
    var n := hi - |before| - |code|;
    CellRoundTrip(first, cells[row], rest[..n]);
    assert (before + code + rest)[|before|..hi] == code + rest[..n];
  }

  class Column {
    /** Whether values are handed back as `U64`. */
    const unsigned: bool
    var form: Form
    ghost var cells: seq<Cell>

    ghost predicate Valid()
      reads this
    {
      Represents(form, cells)
    }

    ghost function S(): State
      reads this
    {
      State(if form.Plain? then PlainShape else DeltaShape(form.first, form.last), cells)
    }

    constructor (unsigned: bool)
      ensures Valid() && S() == State(PlainShape, []) && this.unsigned == unsigned
    {
      this.unsigned, form, cells := unsigned, Plain([]), [];
    }

    method Len() returns (n: nat)
      requires Valid()
      ensures n == |cells|
    {
      match form {
        case Plain(c) => n := |c|;
        case Delta(_, _, rows, _, _) => n := rows;
      }
    }

    /** The byte span of one row: from its block's start, walking at most 32 encodings. */
    method RowSpan(row: nat) returns (lo: nat, hi: nat)
      requires Valid() && form.Delta? && row < |cells|
      ensures lo <= |form.bytes| && hi <= |form.bytes|
      ensures |form.bytes| < TWO32 ==>
        lo == Offset(form.first, cells, row) && Offset(form.first, cells, row + 1) <= hi
    {
      hide Directory;
      hide EncodeRows;
      hide Read;
      hide DecodeCell;
      hide Kept;
      hide KeptAll;
      hide Offset;
      var block := row / BLOCK;
      ghost var first, small := form.first, |form.bytes| < TWO32;
      DirectorySize(first, cells, form.blockEnds);
      BlockStart(first, cells, form.blockEnds, block);
      BlockStart(first, cells, form.blockEnds, block + 1);
      OffsetMonotone(first, cells, row, row + 1);
      assert Offset(first, cells, 0) == 0 by { OffsetZero(first, cells); }
      lo := if block == 0 then 0 else form.blockEnds[block - 1];
      hi := if (block + 1) * BLOCK <= form.rows && block < |form.blockEnds|
            then form.blockEnds[block] else |form.bytes|;
      var idx := block * BLOCK;
      if (block + 1) * BLOCK <= form.rows { OffsetMonotone(first, cells, row + 1, (block + 1) * BLOCK); }
      while idx < row && lo < hi
        invariant block * BLOCK <= idx <= row && lo <= |form.bytes| && hi <= |form.bytes|
        invariant small ==> lo == Offset(first, cells, idx) && Offset(first, cells, row + 1) <= hi
        decreases row - idx
      {
        RowAt(first, cells, idx);
        var _, used := ReadFrom(form.bytes, lo);
        lo := lo + used;
        idx := idx + 1;
      }
      if small && idx < row {
        RowAt(first, cells, idx);
        OffsetMonotone(first, cells, idx + 1, row + 1);
      }
      RowAt(first, cells, row);
      hi := if hi <= lo + 16 then hi else lo + 16;
    }

    /** What was pushed at `row`, in either form. */
    method Get(row: nat) returns (v: Option<Int>)
      requires Valid()
      ensures row >= |cells| ==> v == None
      ensures row < |cells| && (form.Delta? ==> |form.bytes| < TWO32) ==> v == Present(unsigned, cells[row])
    {
      match form {
        case Plain(c) => v := if row < |c| then Present(unsigned, c[row]) else None;
        case Delta(first, _, rows, _, bytes) =>
          if row >= rows { return None; }
          hide Read;
          hide DecodeCell;
          hide Offset;
          hide EncodeRows;
          hide Directory;
          hide KeptAll;
          hide Low64;
          hide Represents;
          var lo, hi := RowSpan(row);
          SpanReads(row, lo, hi);
          if lo >= hi || bytes[lo] == 0 { return None; }
          var z, _ := ReadFrom(bytes[lo..hi], 0);
          assert bytes[lo..hi][0..] == bytes[lo..hi];
          v := Present(unsigned, DecodeCell(first, Low64(z)));
      }
    }

    lemma SpanReads(row: nat, lo: nat, hi: nat)
      requires Valid() && form.Delta? && row < |cells|
      requires hi <= |form.bytes|
      ensures lo == Offset(form.first, cells, row) && Offset(form.first, cells, row + 1) <= hi ==>
        && lo < hi
        && (form.bytes[lo] == 0 <==> cells[row].None?)
        && Read(form.bytes[lo..hi]).0 < TWO64
        && DecodeCell(form.first, Read(form.bytes[lo..hi]).0) == cells[row]
    {
      if lo == Offset(form.first, cells, row) && Offset(form.first, cells, row + 1) <= hi {
        ReadSlice(form.first, cells, row, hi);
        assert KeptAll(form.first, cells)[row] == Kept(form.first, cells[row]);
      }
    }

    /** Every row of a delta column, decoded from the first byte on. */
    method DeltaRows() returns (out: seq<Cell>)
      requires Valid() && form.Delta?
      ensures out == cells
    {
      hide Read;
      hide DecodeCell;
      hide Kept;
      hide EncodeRows;
      hide Directory;
      var pos := 0;
      out := [];
      OffsetZero(form.first, cells);
      for i := 0 to form.rows
        invariant out == cells[..i] && pos == Offset(form.first, cells, i)
      {
        ReadRow(form.first, cells, i);
        RowAt(form.first, cells, i);
        var z, used := ReadFrom(form.bytes, pos);
        assert KeptAll(form.first, cells)[i] == Kept(form.first, cells[i]);
        out := out + [DecodeCell(form.first, z)];
        pos := pos + used;
      }
    }

    /** Go back to the plain form, keeping every row. */
    method Expand()
      requires Valid()
      modifies this`form
      ensures Valid() && S() == State(PlainShape, cells)
    {
      if form.Delta? {
        var rows := DeltaRows();
        form := Plain(rows);
      }
    }

    method PushNull()
      requires Valid()
      modifies this
      ensures Valid() && S() == State(old(S()).shape, old(cells) + [None])
    {
      match form {
        case Plain(c) => form := Plain(c + [None]);
        case Delta(first, last, rows, blockEnds, bytes) =>
          form := AppendRow(first, last, rows, blockEnds, bytes, None);
      }
      cells := cells + [None];
    }

    /** Append one encoding, closing a block every 32 rows. */
    method AppendRow(first: i64, last: i64, rows: nat, blockEnds: seq<nat>, bytes: Bytes, c: Cell) returns (next: Form)
      requires form == Delta(first, last, rows, blockEnds, bytes) && Valid()
      ensures next.Delta? && next.first == first && next.last == (if c.Some? then c.value else last)
      ensures Represents(next, cells + [Kept(first, c)])
    {
      hide Directory;
      hide EncodeCell;
      hide EncodeRows;
      hide Kept;
      var bytes', last' := EncodeOne(first, c, bytes, last);
      var rows' := rows + 1;
      var ends := if rows' % BLOCK == 0 then blockEnds + [|bytes'| % TWO32] else blockEnds;
      next := Delta(first, last', rows', ends, bytes');
      KeptEncodes(first, c);
      DirectoryNext(first, cells, Kept(first, c), blockEnds);
      KeptTwice(first, c);
    }

    /** Convert a plain column at a checkpoint length, when its present values are in order. */
    method MaybeCompress(enabled: bool)
      requires Valid() && form.Plain?
      modifies this
      ensures Valid() && S() == Compressed(enabled, old(cells))
    {
      if !enabled { return; }
      var plain := form.cells;
      var sorted := IsNonDecreasing(plain);
      if !PowerOfTwo(|plain|) || |plain| < MIN_ROWS || !sorted { return; }
      var first := FindFirst(plain);
      var last, ends, bytes := DeltaBytes(first, plain);
      form := Delta(first, last, |plain|, ends, bytes);
      CompressedRepresents(first, plain, ends);
      cells := KeptAll(first, plain);
    }

    /** Integers may upgrade a plain column that has gone sorted, or demote a delta one that has not stayed so. */
    method PushInt(v: Int, enabled: bool)
      requires Valid()
      modifies this
      ensures Valid() && S() == Pushed(unsigned, enabled, old(S()), v)
    {
      var n := Raw(v);
      if form.Delta? {
        if n >= form.last {
          form := AppendRow(form.first, form.last, form.rows, form.blockEnds, form.bytes, Some(n));
          cells := cells + [Kept(form.first, Some(n))];
          return;
        }
        Expand();
      }
      if unsigned && v.I64? {
        PushNull();
      } else {
        form := Plain(form.cells + [Some(n)]);
        cells := cells + [Some(n)];
        MaybeCompress(enabled);
      }
    }
  }

  /** Encode every row as an offset from `first`, noting where each block ends. */
  method DeltaBytes(first: i64, plain: seq<Cell>) returns (last: i64, ends: seq<nat>, bytes: Bytes)
    ensures bytes == EncodeRows(first, plain) && Directory(first, plain, ends) && last == LastOf(plain, first)
  {
    bytes, ends, last := [], [], first;
    hide Directory;
    hide EncodeCell;
    hide EncodeRows;
    NoRows(first);
    for i := 0 to |plain|
      invariant bytes == EncodeRows(first, plain[..i])
      invariant Directory(first, plain[..i], ends)
      invariant last == LastOf(plain[..i], first)
    {
      assert plain[..i + 1] == plain[..i] + [plain[i]] && plain[..i + 1][..i] == plain[..i];
      DirectoryNext(first, plain[..i], plain[i], ends);
      bytes, last := EncodeOne(first, plain[i], bytes, last);
      if (i + 1) % BLOCK == 0 {
        ends := ends + [|bytes| % TWO32];
      }
    }
    assert plain[..|plain|] == plain;
  }

  method EncodeOne(first: i64, c: Cell, bytes: Bytes, last: i64) returns (bytes': Bytes, last': i64)
    ensures bytes' == bytes + EncodeCell(first, c) && last' == if c.Some? then c.value else last
  {
    match c {
      case None => return bytes + [0], last;
      case Some(v) =>
        bytes' := Write(Code(first, v), bytes);
        last' := v;
    }
  }

  lemma NoRows(first: i64)
    ensures EncodeRows(first, []) == [] && Directory(first, [], [])
  {
  }

  method IsNonDecreasing(cells: seq<Cell>) returns (sorted: bool)
    ensures sorted <==> NonDecreasing(cells)
  {
    var prev: Cell := None;
    for i := 0 to |cells|
      invariant NonDecreasing(cells[..i])
      invariant prev.None? ==> forall j :: 0 <= j < i ==> cells[j].None?
      invariant prev.Some? ==> exists j :: 0 <= j < i && cells[j] == prev
      invariant prev.Some? ==> forall j :: 0 <= j < i && cells[j].Some? ==> cells[j].value <= prev.value
    {
      if cells[i].Some? {
        if prev.Some? && cells[i].value < prev.value { return false; }
        prev := cells[i];
      }
    }
    assert cells[..|cells|] == cells;
    sorted := true;
  }

  method FindFirst(cells: seq<Cell>) returns (first: i64)
    ensures first == FirstOf(cells)
  {
    for i := 0 to |cells|
      invariant FirstOf(cells) == FirstOf(cells[i..])
    {
      if cells[i].Some? { return cells[i].value; }
    }
    first := 0;
  }

  lemma KeptEncodes(first: i64, c: Cell)
    ensures EncodeCell(first, Kept(first, c)) == EncodeCell(first, c)
  {
    EncodeRowsKept(first, [c]);
    assert KeptAll(first, [c]) == [Kept(first, c)];
    assert [c][..0] == [] && [Kept(first, c)][..0] == [];
    assert EncodeRows(first, [c]) == EncodeCell(first, c);
    assert EncodeRows(first, [Kept(first, c)]) == EncodeCell(first, Kept(first, c));
  }

  lemma KeptTwice(first: i64, c: Cell)
    ensures Kept(first, Kept(first, c)) == Kept(first, c)
  {
  }

  lemma {:induction false} OffsetKept(first: i64, cells: seq<Cell>, i: nat)
    requires i <= |cells|
    ensures Offset(first, KeptAll(first, cells), i) == Offset(first, cells, i)
  {
    EncodeRowsKept(first, cells[..i]);
    assert KeptAll(first, cells)[..i] == KeptAll(first, cells[..i]);
  }

  lemma CompressedRepresents(first: i64, plain: seq<Cell>, ends: seq<nat>)
    requires Directory(first, plain, ends)
    ensures EncodeRows(first, KeptAll(first, plain)) == EncodeRows(first, plain)
    ensures Directory(first, KeptAll(first, plain), ends)
    ensures KeptAll(first, KeptAll(first, plain)) == KeptAll(first, plain)
  {
    EncodeRowsKept(first, plain);
    forall i: nat | i <= |plain| { OffsetKept(first, plain, i); }
  }

  lemma DirectorySize(first: i64, cells: seq<Cell>, blockEnds: seq<nat>)
    requires Directory(first, cells, blockEnds)
    ensures |blockEnds| == |cells| / BLOCK
  {
  }

  lemma OffsetZero(first: i64, cells: seq<Cell>)
    ensures Offset(first, cells, 0) == 0
  {
  }

  /** Reading at row `i`'s offset advances to row `i + 1`'s, by at most ten bytes. */
  lemma RowAt(first: i64, cells: seq<Cell>, i: nat)
    requires i < |cells|
    ensures var all, at := EncodeRows(first, cells), Offset(first, cells, i);
      && at < |all| && at + Read(all[at..]).1 == Offset(first, cells, i + 1)
      && at < Offset(first, cells, i + 1) <= at + 10
      && Offset(first, cells, i + 1) <= |all|
  {
    hide Read;
    ReadRow(first, cells, i);
  }

  lemma BlockStart(first: i64, cells: seq<Cell>, blockEnds: seq<nat>, block: nat)
    requires Directory(first, cells, blockEnds)
    ensures 0 < block && block * BLOCK <= |cells| ==>
      && block <= |blockEnds|
      && blockEnds[block - 1] <= |EncodeRows(first, cells)|
      && (|EncodeRows(first, cells)| < TWO32 ==> blockEnds[block - 1] == Offset(first, cells, block * BLOCK))
  {
    hide EncodeRows;
    if 0 < block && block * BLOCK <= |cells| {
      OffsetMonotone(first, cells, block * BLOCK, |cells|);
      var at := Offset(first, cells, BLOCK * (block - 1 + 1));
      assert blockEnds[block - 1] == at % TWO32;
      Mod32(at);
    }
  }

  lemma Mod32(x: nat)
    ensures x % TWO32 <= x
    ensures x < TWO32 ==> x % TWO32 == x
  {
  }
}
