/**
 * One field's values in a columnar copy. A column takes the kind of the first
 * value it is made for; what it cannot hold it records as an absence.
 */
module Columns {
  import opened Basics
  import opened Varint
  import opened Records
  import D = DeltaColumn

  datatype Kind = Bools | Floats | Texts | Others

  /** Integers have two physical forms; every other kind is one slot a row. */
  datatype Column =
    | Ints(unsigned: bool, s: D.State)
    | Typed(kind: Kind, cells: seq<Option<Atom>>)

  function ForValue(a: Atom): Column {
    match a
    case I64(_) => Ints(false, D.State(D.PlainShape, []))
    case U64(_) => Ints(true, D.State(D.PlainShape, []))
    case Bool(_) => Typed(Bools, [])
    case F64(_) => Typed(Floats, [])
    case Str(_) => Typed(Texts, [])
    case _ => Typed(Others, [])
  }

  predicate Integer(a: Atom) { a.I64? || a.U64? }

  /** The catch-all kind holds anything but an integer. */
  predicate Holds(kind: Kind, a: Atom) {
    match kind
    case Bools => a.Bool?
    case Floats => a.F64?
    case Texts => a.Str?
    case Others => !Integer(a)
  }

  predicate Sound(c: Column) {
    c.Typed? ==> forall i :: 0 <= i < |c.cells| ==> c.cells[i].None? || Holds(c.kind, c.cells[i].value)
  }

  function Length(c: Column): nat {
    if c.Ints? then |c.s.cells| else |c.cells|
  }

  function FromInt(v: D.Int): Atom {
    match v case I64(i) => I64(i) case U64(u) => U64(u)
  }

  function ToInt(a: Atom): D.Int
    requires Integer(a)
  {
    if a.I64? then D.I64(a.i) else D.U64(a.u)
  }

  function FromStored(v: Option<D.Int>): Option<Atom> {
    match v case None => None case Some(n) => Some(FromInt(n))
  }

  /** What a row reads as. */
  function At(c: Column, row: nat): Option<Atom>
    requires row < Length(c)
  {
    match c
    case Ints(unsigned, s) => FromStored(D.Present(unsigned, s.cells[row]))
    case Typed(_, cells) => cells[row]
  }

  function PushNull(c: Column): Column {
    match c
    case Ints(unsigned, s) => Ints(unsigned, D.State(s.shape, s.cells + [None]))
    case Typed(kind, cells) => Typed(kind, cells + [None])
  }

  function Push(c: Column, delta: bool, a: Atom): Column {
    match c
    case Ints(unsigned, s) =>
      if Integer(a) then Ints(unsigned, D.Pushed(unsigned, delta, s, ToInt(a))) else PushNull(c)
    case Typed(kind, cells) => if Holds(kind, a) then Typed(kind, cells + [Some(a)]) else PushNull(c)
  }

  function PushCell(c: Column, delta: bool, v: Option<Atom>): Column {
    match v case None => PushNull(c) case Some(a) => Push(c, delta, a)
  }

  /** Switching the delta form off expands every column that is in it. */
  function Expanded(c: Column): Column {
    if c.Ints? then Ints(c.unsigned, D.State(D.PlainShape, c.s.cells)) else c
  }

  // -- what a push keeps ---------------------------------------------------

  /** The value is of the column's own kind. */
  predicate Suits(c: Column, a: Atom) {
    match c
    case Ints(unsigned, _) => if unsigned then a.U64? else a.I64?
    case Typed(kind, _) => Holds(kind, a)
  }

  /** A value lost as an offset: it lies exactly 2^63 above the column's first. */
  predicate TooFar(first: i64, v: i64) {
    v - first == TWO63
  }

  /** The push turns the whole column into its delta form. */
  predicate Compresses(c: Column, delta: bool, a: Atom)
    requires c.Ints? && Integer(a)
  {
    && !(c.unsigned && a.I64?)
    && (c.s.shape.PlainShape? || D.Raw(ToInt(a)) < c.s.shape.last)
    && delta && D.Compressible(c.s.cells + [Some(D.Raw(ToInt(a)))])
  }

  /** The first value of the column once `a` is in it. */
  function FirstWith(c: Column, a: Atom): i64
    requires c.Ints? && Integer(a)
  {
    D.FirstOf(c.s.cells + [Some(D.Raw(ToInt(a)))])
  }

  /** The pushed value is not lost to the delta form. */
  predicate Reaches(c: Column, delta: bool, a: Atom)
    requires Suits(c, a)
  {
    c.Ints? ==>
      var v := D.Raw(ToInt(a));
      && (c.s.shape.DeltaShape? && v >= c.s.shape.last ==> !TooFar(c.s.shape.first, v))
      && (Compresses(c, delta, a) ==> !TooFar(FirstWith(c, a), v))
  }

  /** An earlier row is lost to the delta form, which the push has just brought about. */
  predicate Loses(c: Column, delta: bool, a: Atom, row: nat)
    requires row < Length(c)
  {
    && c.Ints? && Integer(a) && Compresses(c, delta, a)
    && c.s.cells[row].Some? && TooFar(FirstWith(c, a), c.s.cells[row].value)
  }

  lemma KeptUnlessFar(first: i64, v: i64)
    requires first <= v
    ensures D.Kept(first, Some(v)) == if TooFar(first, v) then None else Some(v)
  {
  }

  lemma FirstLeast(cells: seq<Option<i64>>, v: i64)
    requires D.NonDecreasing(cells) && Some(v) in cells
    ensures D.FirstOf(cells) <= v
  {
    D.FirstOfSorted(cells);
  }

  /** Delta columns hold values from their first up to their last. */
  predicate InOrder(c: Column) {
    c.Ints? && c.s.shape.DeltaShape? ==> c.s.shape.first <= c.s.shape.last
  }

  lemma CompressedReads(unsigned: bool, delta: bool, cells: seq<Option<i64>>, row: nat)
    requires row < |cells| && cells[row].Some?
    ensures |D.Compressed(delta, cells).cells| == |cells|
    ensures D.Compressed(delta, cells).cells[row] ==
      if delta && D.Compressible(cells) && TooFar(D.FirstOf(cells), cells[row].value) then None else cells[row]
  {
    if delta && D.Compressible(cells) {
      var v := cells[row].value;
      assert Some(v) in cells;
      FirstLeast(cells, v);
      KeptUnlessFar(D.FirstOf(cells), v);
    }
  }

  lemma CompressedLength(delta: bool, cells: seq<Option<i64>>)
    ensures |D.Compressed(delta, cells).cells| == |cells|
    ensures forall row | 0 <= row < |cells| && cells[row].None? :: D.Compressed(delta, cells).cells[row].None?
  {
  }

  /** The new row reads as what was pushed exactly when the value suits its column and is not too far. */
  lemma PushedLast(c: Column, delta: bool, a: Atom)
    requires InOrder(c)
    ensures Length(Push(c, delta, a)) == Length(c) + 1
    ensures At(Push(c, delta, a), Length(c)) == Some(a) <==> Suits(c, a) && Reaches(c, delta, a)
  {
    if c.Ints? && Integer(a) {
      var v := D.Raw(ToInt(a));
      var cells := c.s.cells + [Some(v)];
      D.PresentRaw(ToInt(a));
      CompressedReads(c.unsigned, delta, cells, |c.s.cells|);
      if c.s.shape.DeltaShape? && v >= c.s.shape.last {
        KeptUnlessFar(c.s.shape.first, v);
      }
      hide D.Compressed, D.Kept, D.FirstOf, D.Compressible;
    }
  }

  /** An earlier row reads as before exactly when the push does not lose it. */
  lemma PushedBefore(c: Column, delta: bool, a: Atom, row: nat)
    requires row < Length(c)
    ensures Length(Push(c, delta, a)) == Length(c) + 1
    ensures At(Push(c, delta, a), row) == At(c, row) <==> !Loses(c, delta, a, row)
  {
    if c.Ints? && Integer(a) {
      var cells := c.s.cells + [Some(D.Raw(ToInt(a)))];
      CompressedLength(delta, cells);
      if c.s.cells[row].Some? {
        CompressedReads(c.unsigned, delta, cells, row);
      }
      hide D.Compressed, D.Kept, D.FirstOf, D.Compressible;
    }
  }

  lemma PushedSound(c: Column, delta: bool, v: Option<Atom>)
    requires Sound(c) && InOrder(c)
    ensures Sound(PushCell(c, delta, v)) && InOrder(PushCell(c, delta, v)) && Length(PushCell(c, delta, v)) == Length(c) + 1
  {
    if c.Ints? && v.Some? && Integer(v.value) {
      var cells := c.s.cells + [Some(D.Raw(ToInt(v.value)))];
      if D.Compressible(cells) {
        var first := D.FirstOf(cells);
        D.LastOfSorted(cells, first);
        FirstLeast(cells, D.Raw(ToInt(v.value)));
      }
    }
  }

  predicate CatchAll(c: Column) { c.Typed? && c.kind == Others }

  /** A column of one kind, the catch-all aside, reads as numbers only or as none. */
  lemma OneKind(c: Column, i: nat, j: nat)
    requires Sound(c) && !CatchAll(c) && i < Length(c) && j < Length(c) && At(c, i).Some? && At(c, j).Some?
    ensures At(c, i).value.I64? || At(c, i).value.U64? || At(c, i).value.F64? <==>
      At(c, j).value.I64? || At(c, j).value.U64? || At(c, j).value.F64?
  {
  }
}
