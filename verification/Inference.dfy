/**
 * Schemas, and inferring the most rigid one a sample supports. Freezing takes
 * freedom away, so what is inferred must take every record it was inferred
 * from, and the same again with longer text.
 */
module Inference {
  import opened Basics
  import opened Varint
  import opened Wire
  import opened Values

  type Rec = map<Text, Value>

  datatype Mode = Dynamic | Declared | Strict | Fixed

  /** The types inference can settle on; declared schemas have more. */
  datatype FieldType = BoolType | I64Type | U64Type | F64Type | Char(width: nat) | FixedBytes(width: nat)

  datatype FieldDef = FieldDef(name: Text, ty: FieldType, nullable: bool)

  datatype Schema = Schema(mode: Mode, fields: seq<FieldDef>)

  // -- widths --------------------------------------------------------------

  function PrefixBytes(width: nat): nat {
    if width <= 256 then 1 else if width <= 65536 then 2 else 4
  }

  /** What a slot can hold besides its length prefix; `None` when the prefix does not fit. */
  function Capacity(width: nat): Option<nat> {
    if width < PrefixBytes(width) then None else Some(width - PrefixBytes(width))
  }

  function Room(width: nat): nat {
    match Capacity(width) case None => 0 case Some(n) => n
  }

  /** The slot for a content length, in 32-bit arithmetic. */
  function WidthFor(content: nat): nat {
    var c := (if content == 0 then 1 else content) % TWO32;
    (c + PrefixBytes((c + 4) % TWO32) + 1) % TWO32
  }

  const LONGEST: nat := 0x1_0000_0000 - 6

  /** The slot holds the content it was sized for exactly when the sizing stays within 32 bits. */
  lemma WidthHolds(content: nat)
    ensures Room(WidthFor(content)) >= content <==> content <= LONGEST
    ensures content <= LONGEST ==> Room(WidthFor(content)) > 0
  {
    if content >= TWO32 {
      assert WidthFor(content) < TWO32;
    }
  }

  // -- what a schema accepts -----------------------------------------------

  function Length(v: Value): Option<nat> {
    match v
    case Str(t) => Some(|t|)
    case Blob(b) => Some(|b|)
    case _ => None
  }

  predicate Inhabits(ty: FieldType, v: Value) {
    match ty
    case BoolType => v.Null? || v.Bool?
    case I64Type => v.Null? || v.I64? || v.U64?
    case U64Type => v.Null? || v.U64? || (v.I64? && v.n >= 0)
    case F64Type => v.Null? || v.F64? || v.I64? || v.U64?
    case Char(_) => v.Null? || v.Str?
    case FixedBytes(_) => v.Null? || v.Blob?
  }

  predicate IsText(ty: FieldType) { ty.Char? || ty.FixedBytes? }

  predicate FieldTakes(def: FieldDef, rec: Rec) {
    if def.name !in rec || rec[def.name].Null? then def.nullable
    else
      var v := rec[def.name];
      Inhabits(def.ty, v) && (IsText(def.ty) && Length(v).Some? && Capacity(def.ty.width).Some? ==> Length(v).value <= Capacity(def.ty.width).value)
  }

  predicate HasName(fields: seq<FieldDef>, f: Text) {
    exists i | 0 <= i < |fields| :: fields[i].name == f
  }

  predicate Names(s: Schema, f: Text) { HasName(s.fields, f) }

  predicate Accepts(s: Schema, rec: Rec) {
    && (s.mode.Strict? || s.mode.Fixed? ==> forall f | f in rec :: Names(s, f))
    && forall i | 0 <= i < |s.fields| :: FieldTakes(s.fields[i], rec)
  }

  predicate WellFormed(s: Schema) {
    && (!s.mode.Dynamic? ==> s.fields != [])
    && (forall i, j | 0 <= i < j < |s.fields| :: s.fields[i].name != s.fields[j].name)
    && (forall i | 0 <= i < |s.fields| :: IsText(s.fields[i].ty) ==> Room(s.fields[i].ty.width) > 0)
  }

  /** So many bytes, and the prefix that counts them, fit a slot. */
  predicate Roomy(width: nat, n: nat) {
    n + 1 <= width <= 256 || (256 < width <= 65536 && n + 2 <= width) || (65536 < width && n + 4 <= width)
  }

  /** A value of the field's kind, and no text longer than its slot has room for; a slot of no width checks no length. */
  predicate Fills(ty: FieldType, v: Value) {
    match ty
    case BoolType => v.Bool?
    case I64Type => v.I64? || v.U64?
    case U64Type => v.U64? || (v.I64? && v.n >= 0)
    case F64Type => v.F64? || v.I64? || v.U64?
    case Char(width) => v.Str? && (width == 0 || Roomy(width, |v.text|))
    case FixedBytes(width) => v.Blob? && (width == 0 || Roomy(width, |v.blob|))
  }

  method Validate(s: Schema) returns (ok: bool)
    ensures ok <==> WellFormed(s)
    ensures ok <==>
      && (s.fields == [] ==> s.mode == Dynamic)
      && (forall i, j | 0 <= i < j < |s.fields| :: s.fields[i].name != s.fields[j].name)
      && (forall i | 0 <= i < |s.fields| && (s.fields[i].ty.Char? || s.fields[i].ty.FixedBytes?) :: Roomy(s.fields[i].ty.width, 1))
  {
    if !s.mode.Dynamic? && s.fields == [] {
      return false;
    }
    var seen: set<Text> := {};
    for i := 0 to |s.fields|
      invariant forall f :: f in seen <==> exists j | 0 <= j < i :: s.fields[j].name == f
      invariant forall j, k | 0 <= j < k < i :: s.fields[j].name != s.fields[k].name
      invariant forall j | 0 <= j < i :: IsText(s.fields[j].ty) ==> Room(s.fields[j].ty.width) > 0
    {
      var f := s.fields[i];
      if f.name in seen || (IsText(f.ty) && Room(f.ty.width) == 0) {
        return false;
      }
      seen := seen + {f.name};
    }
    ok := true;
  }

  lemma FillsExactly(def: FieldDef, rec: Rec)
    ensures FieldTakes(def, rec) <==> if Holds(rec, def.name) then Fills(def.ty, rec[def.name]) else def.nullable
  {
  }

  method ValidateRecord(s: Schema, rec: Rec) returns (ok: bool)
    ensures ok <==> Accepts(s, rec)
    ensures ok <==>
      && (s.mode in {Strict, Fixed} ==> forall f | f in rec :: exists i | 0 <= i < |s.fields| :: s.fields[i].name == f)
      && (forall i | 0 <= i < |s.fields| ::
           if Holds(rec, s.fields[i].name) then Fills(s.fields[i].ty, rec[s.fields[i].name]) else s.fields[i].nullable)
  {
    forall i | 0 <= i < |s.fields|
      ensures FieldTakes(s.fields[i], rec) <==>
        if Holds(rec, s.fields[i].name) then Fills(s.fields[i].ty, rec[s.fields[i].name]) else s.fields[i].nullable
    {
      FillsExactly(s.fields[i], rec);
    }
    hide FieldTakes, Fills, Holds;
    if s.mode.Strict? || s.mode.Fixed? {
      var names := ToSeq(rec.Keys);
      for i := 0 to |names|
        invariant forall j | 0 <= j < i :: Names(s, names[j])
      {
        if !Names(s, names[i]) {
          return false;
        }
      }
    }
    for i := 0 to |s.fields|
      invariant forall j | 0 <= j < i :: FieldTakes(s.fields[j], rec)
    {
      if !FieldTakes(s.fields[i], rec) {
        return false;
      }
    }
    ok := true;
  }

  // -- evidence ------------------------------------------------------------

  datatype Evidence = Evidence(
    present: nat, bools: nat, ints: nat, uints: nat, floats: nat, strings: nat, blobs: nat, other: nat, maxLen: nat)

  const NONE_YET := Evidence(0, 0, 0, 0, 0, 0, 0, 0, 0)

  function Max(a: nat, b: nat): nat { if a < b then b else a }

  function Observe(e: Evidence, v: Value): Evidence {
    match v
    case Null => e
    case Bool(_) => e.(present := e.present + 1, bools := e.bools + 1)
    case I64(_) => e.(present := e.present + 1, ints := e.ints + 1)
    case U64(_) => e.(present := e.present + 1, uints := e.uints + 1)
    case F64(_) => e.(present := e.present + 1, floats := e.floats + 1)
    case Str(t) => e.(present := e.present + 1, strings := e.strings + 1, maxLen := Max(e.maxLen, |t|))
    case Blob(b) => e.(present := e.present + 1, blobs := e.blobs + 1, maxLen := Max(e.maxLen, |b|))
    case _ => e.(present := e.present + 1, other := e.other + 1)
  }

  /** The single type a field always held, if there is one; signed and unsigned together settle on signed. */
  function Settled(e: Evidence, headroom: nat): Option<FieldType> {
    if e.other > 0 then None
    else
      match (e.bools > 0, e.ints > 0, e.uints > 0, e.floats > 0, e.strings > 0, e.blobs > 0)
      case (true, false, false, false, false, false) => Some(BoolType)
      case (false, true, _, false, false, false) => Some(I64Type)
      case (false, false, true, false, false, false) => Some(U64Type)
      case (false, false, false, true, false, false) => Some(F64Type)
      case (false, false, false, false, true, false) => Some(Char(WidthFor(e.maxLen + headroom)))
      case (false, false, false, false, false, true) => Some(FixedBytes(WidthFor(e.maxLen + headroom)))
      case _ => None
  }

  function Gathered(records: seq<Rec>, f: Text): Evidence {
    if records == [] then NONE_YET
    else
      var e := Gathered(records[..|records| - 1], f);
      var last := records[|records| - 1];
      if f in last then Observe(e, last[f]) else e
  }

  // -- inference -----------------------------------------------------------

  function FieldFor(records: seq<Rec>, headroom: nat, f: Text): Option<FieldDef> {
    var e := Gathered(records, f);
    match Settled(e, headroom)
    case None => None
    case Some(ty) => Some(FieldDef(f, ty, !(e.present == |records| && |records| > 0)))
  }

  function Frozen(records: seq<Rec>, headroom: nat, names: seq<Text>): (r: seq<FieldDef>)
    ensures |r| <= |names|
    ensures |r| == |names| ==> forall i | 0 <= i < |names| :: FieldFor(records, headroom, names[i]).Some?
  {
    if names == [] then []
    else
      var front := Frozen(records, headroom, names[..|names| - 1]);
      match FieldFor(records, headroom, names[|names| - 1])
      case None => front
      case Some(def) => front + [def]
  }

  lemma FieldForName(records: seq<Rec>, headroom: nat, f: Text)
    ensures FieldFor(records, headroom, f).Some? ==> FieldFor(records, headroom, f).value.name == f
  {
  }

  /** The schema for a sample, its field names met in the order given. */
  function Inferred(records: seq<Rec>, headroom: nat, names: seq<Text>): Schema {
    var fields := Frozen(records, headroom, names);
    var mode :=
      if records != [] && |fields| == |names| && fields != [] then Fixed
      else if fields == [] then Dynamic
      else Declared;
    if mode == Dynamic then Schema(Dynamic, [])
    else if WellFormed(Schema(mode, fields)) then Schema(mode, fields)
    else if WellFormed(Schema(Declared, fields)) then Schema(Declared, fields)
    else Schema(Dynamic, [])
  }

  ghost function AllNames(records: seq<Rec>): set<Text> {
    set i, f | 0 <= i < |records| && f in records[i] :: f
  }

  /** Text no longer than 32-bit slot arithmetic allows once headroom is added. */
  predicate Short(records: seq<Rec>, headroom: nat) {
    forall i, f | 0 <= i < |records| && f in records[i] ::
      Length(records[i][f]).Some? ==> Length(records[i][f]).value + headroom <= LONGEST
  }

  /** The same kind of value, its text at most `headroom` longer. */
  predicate SameKind(v: Value, w: Value, headroom: nat) {
    match v
    case Null => w.Null?
    case Bool(_) => w.Bool?
    case I64(_) => w.I64?
    case U64(_) => w.U64?
    case F64(_) => w.F64?
    case Str(t) => w.Str? && |w.text| <= |t| + headroom
    case Blob(b) => w.Blob? && |w.blob| <= |b| + headroom
    case _ => !w.Null?
  }

  ghost predicate Alike(r: Rec, s: Rec, headroom: nat) {
    r.Keys == s.Keys && forall f | f in r :: SameKind(r[f], s[f], headroom)
  }

  /** Whether the evidence has seen a value of this kind, this long. */
  predicate Saw(e: Evidence, v: Value) {
    match v
    case Null => true
    case Bool(_) => e.bools > 0
    case I64(_) => e.ints > 0
    case U64(_) => e.uints > 0
    case F64(_) => e.floats > 0
    case Str(t) => e.strings > 0 && |t| <= e.maxLen
    case Blob(b) => e.blobs > 0 && |b| <= e.maxLen
    case _ => e.other > 0
  }

  predicate Holds(rec: Rec, f: Text) {
    f in rec && !rec[f].Null?
  }

  lemma ObserveSaw(e: Evidence, v: Value, w: Value)
    ensures Saw(Observe(e, v), v) && (Saw(e, w) ==> Saw(Observe(e, v), w))
    ensures Observe(e, v).present == e.present + if v.Null? then 0 else 1
  {
  }

  lemma {:induction false} GatheredSaw(records: seq<Rec>, f: Text)
    ensures var e := Gathered(records, f);
      && e.present <= |records|
      && (e.present == |records| <==> forall i | 0 <= i < |records| :: Holds(records[i], f))
      && (forall i | 0 <= i < |records| && f in records[i] :: Saw(e, records[i][f]))
  {
    if records != [] {
      hide Saw, Observe;
      var n := |records| - 1;
      var e := Gathered(records[..n], f);
      GatheredSaw(records[..n], f);
      assert forall i | 0 <= i < n :: records[..n][i] == records[i];
      if f in records[n] {
        ObserveSaw(e, records[n][f], records[n][f]);
        forall i | 0 <= i < n && f in records[i] ensures Saw(Observe(e, records[n][f]), records[i][f]) {
          ObserveSaw(e, records[n][f], records[i][f]);
        }
      }
    }
  }

  /** The longest text seen is the length of some text seen. */
  lemma {:induction false} GatheredShort(records: seq<Rec>, headroom: nat, f: Text)
    requires Short(records, headroom)
    ensures Gathered(records, f).maxLen == 0 || Gathered(records, f).maxLen + headroom <= LONGEST
  {
    if records != [] {
      var n := |records| - 1;
      assert forall i | 0 <= i < n :: records[..n][i] == records[i];
      GatheredShort(records[..n], headroom, f);
    }
  }

  /** A settled type takes every value like one it was settled from. */
  lemma SettledTakes(e: Evidence, headroom: nat, v: Value, w: Value)
    requires Settled(e, headroom).Some? && Saw(e, v) && SameKind(v, w, headroom) && !v.Null?
    requires e.maxLen + headroom <= LONGEST
    ensures var ty := Settled(e, headroom).value;
      Inhabits(ty, w) && (IsText(ty) ==> Room(ty.width) > 0 && (Length(w).Some? ==> Length(w).value <= Room(ty.width)))
  {
    WidthHolds(e.maxLen + headroom);
    hide WidthFor, Room;
  }

  lemma SettledRoom(e: Evidence, headroom: nat)
    requires Settled(e, headroom).Some? && e.maxLen + headroom <= LONGEST
    ensures var ty := Settled(e, headroom).value; IsText(ty) ==> Room(ty.width) > 0
  {
    WidthHolds(e.maxLen + headroom);
    hide WidthFor, Room;
  }

  lemma FieldForTakes(records: seq<Rec>, headroom: nat, f: Text, i: nat, s: Rec)
    requires Short(records, headroom) && headroom <= LONGEST && i < |records| && Alike(records[i], s, headroom)
    requires FieldFor(records, headroom, f).Some?
    ensures FieldTakes(FieldFor(records, headroom, f).value, s)
  {
    var e := Gathered(records, f);
    GatheredSaw(records, f);
    GatheredShort(records, headroom, f);
    hide Gathered, Settled, Saw, Short, Inhabits;
    if f in records[i] && !records[i][f].Null? {
      SettledTakes(e, headroom, records[i][f], s[f]);
    }
  }

  predicate FrozenFrom(records: seq<Rec>, headroom: nat, def: FieldDef) {
    FieldFor(records, headroom, def.name) == Some(def)
  }

  lemma {:induction false} FrozenAt(records: seq<Rec>, headroom: nat, names: seq<Text>, i: nat)
    requires i < |Frozen(records, headroom, names)|
    ensures var def := Frozen(records, headroom, names)[i];
      def.name in names && FrozenFrom(records, headroom, def)
  {
    hide FieldFor;
    var n := |names| - 1;
    FieldForName(records, headroom, names[n]);
    if i < |Frozen(records, headroom, names[..n])| {
      FrozenAt(records, headroom, names[..n], i);
    }
  }

  lemma {:induction false} FrozenOnce(records: seq<Rec>, headroom: nat, names: seq<Text>, i: nat, j: nat)
    requires forall k, l :: 0 <= k < l < |names| ==> names[k] != names[l]
    requires i < j < |Frozen(records, headroom, names)|
    ensures Frozen(records, headroom, names)[i].name != Frozen(records, headroom, names)[j].name
  {
    hide FieldFor;
    var n := |names| - 1;
    var before := Frozen(records, headroom, names[..n]);
    FieldForName(records, headroom, names[n]);
    if j < |before| {
      FrozenOnce(records, headroom, names[..n], i, j);
    } else {
      FrozenAt(records, headroom, names[..n], i);
    }
  }

  lemma {:induction false} FrozenAll(records: seq<Rec>, headroom: nat, names: seq<Text>)
    ensures forall f | f in names && FieldFor(records, headroom, f).Some? :: HasName(Frozen(records, headroom, names), f)
  {
    hide FieldFor;
    if names != [] {
      var n := |names| - 1;
      FrozenAll(records, headroom, names[..n]);
      FieldForName(records, headroom, names[n]);
      var before, fields := Frozen(records, headroom, names[..n]), Frozen(records, headroom, names);
      forall f | f in names && FieldFor(records, headroom, f).Some? ensures HasName(fields, f) {
        if f == names[n] {
          assert fields[|fields| - 1].name == f;
        } else {
          var k :| 0 <= k < |names| && names[k] == f;
          assert names[..n][k] == f;
          var i :| 0 <= i < |before| && before[i].name == f;
          assert fields[i].name == f;
        }
      }
    }
  }

  lemma InferredIsFrozen(records: seq<Rec>, headroom: nat, names: seq<Text>)
    requires Short(records, headroom) && headroom <= LONGEST
    requires forall i, j :: 0 <= i < j < |names| ==> names[i] != names[j]
    ensures var s := Inferred(records, headroom, names);
      s.fields == Frozen(records, headroom, names) && WellFormed(s)
      && (s.mode.Fixed? ==> |s.fields| == |names|) && !s.mode.Strict?
  {
    var fields := Frozen(records, headroom, names);
    hide Gathered, Settled, Frozen;
    forall i, j | 0 <= i < j < |fields| ensures fields[i].name != fields[j].name {
      FrozenOnce(records, headroom, names, i, j);
    }
    forall i | 0 <= i < |fields| ensures IsText(fields[i].ty) ==> Room(fields[i].ty.width) > 0 {
      var f := fields[i].name;
      FrozenAt(records, headroom, names, i);
      GatheredShort(records, headroom, f);
      SettledRoom(Gathered(records, f), headroom);
    }
  }

  /**
   * The inferred schema is well formed, and takes every record like one it was
   * inferred from: the same fields, the same kinds, text up to `headroom` longer.
   */
  lemma InferenceAccepts(records: seq<Rec>, headroom: nat, names: seq<Text>, i: nat, s: Rec)
    requires Short(records, headroom) && headroom <= LONGEST && Enumerates(names, AllNames(records))
    requires i < |records| && Alike(records[i], s, headroom)
    ensures WellFormed(Inferred(records, headroom, names)) && Accepts(Inferred(records, headroom, names), s)
  {
    var schema := Inferred(records, headroom, names);
    InferredIsFrozen(records, headroom, names);
    FrozenAll(records, headroom, names);
    hide Inferred, Gathered, Settled, FieldFor, FieldTakes, WellFormed;
    forall k | 0 <= k < |schema.fields| ensures FieldTakes(schema.fields[k], s) {
      FrozenAt(records, headroom, names, k);
      FieldForTakes(records, headroom, schema.fields[k].name, i, s);
    }
    if schema.mode.Fixed? {
      forall f | f in s ensures Names(schema, f) {
        assert f in records[i] && f in AllNames(records);
      }
    }
  }

  lemma SelfAlike(r: Rec, headroom: nat)
    ensures Alike(r, r, headroom)
  {
  }

  /** Every sampled record is among those taken. */
  lemma InferenceTakesSample(records: seq<Rec>, headroom: nat, names: seq<Text>)
    requires Short(records, headroom) && headroom <= LONGEST && Enumerates(names, AllNames(records))
    ensures forall r | r in records :: Accepts(Inferred(records, headroom, names), r)
  {
    forall r | r in records ensures Accepts(Inferred(records, headroom, names), r) {
      var i :| 0 <= i < |records| && records[i] == r;
      SelfAlike(r, headroom);
      InferenceAccepts(records, headroom, names, i, r);
    }
  }

  // -- no looser than the sample -------------------------------------------

  /** The kinds a value can be of; a slot has no type for the last. */
  datatype Kind = Bools | Signed | Unsigned | Floats | Texts | Bytes | Others

  function KindOf(v: Value): Kind {
    match v
    case Bool(_) => Bools
    case I64(_) => Signed
    case U64(_) => Unsigned
    case F64(_) => Floats
    case Str(_) => Texts
    case Blob(_) => Bytes
    case _ => Others
  }

  /** Some sampled record holds a value of the kind in the field. */
  ghost predicate Met(records: seq<Rec>, f: Text, kind: Kind) {
    exists i | 0 <= i < |records| :: Holds(records[i], f) && KindOf(records[i][f]) == kind
  }

  /** The field holds something, and all it holds is of these kinds. */
  ghost predicate Only(records: seq<Rec>, f: Text, kinds: set<Kind>) {
    (exists kind | kind in kinds :: Met(records, f, kind)) && forall kind | Met(records, f, kind) :: kind in kinds
  }

  /** What the sample holds in a field is of one kind that a slot has a type for, the two kinds of integer being one. */
  ghost predicate OneKind(records: seq<Rec>, f: Text) {
    || Only(records, f, {Bools}) || Only(records, f, {Signed, Unsigned}) || Only(records, f, {Floats})
    || Only(records, f, {Texts}) || Only(records, f, {Bytes})
  }

  /** A length that some value of the field has and none exceeds. */
  ghost predicate Longest(records: seq<Rec>, f: Text, n: nat) {
    && (exists i | 0 <= i < |records| :: Holds(records[i], f) && Length(records[i][f]) == Some(n))
    && forall i | 0 <= i < |records| && Holds(records[i], f) && Length(records[i][f]).Some? :: Length(records[i][f]).value <= n
  }

  /** A slot for the longest value and its headroom: the length before it in one, two or four bytes, and one byte more. */
  ghost predicate SlotOf(records: seq<Rec>, headroom: nat, f: Text, width: nat) {
    exists n: nat :: Longest(records, f, n) &&
      var content := if n + headroom == 0 then 1 else n + headroom;
      width == content + (if content <= 252 then 1 else if content <= 65532 then 2 else 4) + 1
  }

  /** The type is that of what the sample holds. */
  ghost predicate TypeIs(records: seq<Rec>, headroom: nat, f: Text, ty: FieldType) {
    match ty
    case BoolType => Only(records, f, {Bools})
    case I64Type => Only(records, f, {Signed, Unsigned}) && Met(records, f, Signed)
    case U64Type => Only(records, f, {Unsigned})
    case F64Type => Only(records, f, {Floats})
    case Char(width) => Only(records, f, {Texts}) && SlotOf(records, headroom, f, width)
    case FixedBytes(width) => Only(records, f, {Bytes}) && SlotOf(records, headroom, f, width)
  }

  function CountOf(e: Evidence, kind: Kind): nat {
    match kind
    case Bools => e.bools
    case Signed => e.ints
    case Unsigned => e.uints
    case Floats => e.floats
    case Texts => e.strings
    case Bytes => e.blobs
    case Others => e.other
  }

  lemma MetNext(records: seq<Rec>, rec: Rec, f: Text, kind: Kind)
    ensures Met(records + [rec], f, kind) <==> Met(records, f, kind) || (Holds(rec, f) && KindOf(rec[f]) == kind)
  {
    var all := records + [rec];
    assert all[|records|] == rec && forall i | 0 <= i < |records| :: all[i] == records[i];
    if Met(records, f, kind) {
      var i :| 0 <= i < |records| && Holds(records[i], f) && KindOf(records[i][f]) == kind;
      assert Holds(all[i], f);
    }
  }

  lemma ObserveCounts(e: Evidence, v: Value, kind: Kind)
    ensures CountOf(Observe(e, v), kind) == CountOf(e, kind) + if !v.Null? && KindOf(v) == kind then 1 else 0
    ensures Observe(e, v).maxLen == if Length(v).Some? then Max(e.maxLen, Length(v).value) else e.maxLen
  {
  }

  /** The evidence counts a kind exactly when a record holds it. */
  lemma {:induction false} GatheredMet(records: seq<Rec>, f: Text, kind: Kind)
    ensures CountOf(Gathered(records, f), kind) > 0 <==> Met(records, f, kind)
  {
    if records != [] {
      var n := |records| - 1;
      var front, rec := records[..n], records[n];
      assert front + [rec] == records;
      GatheredMet(front, f, kind);
      MetNext(front, rec, f, kind);
      GatheredNext(front, rec);
      if f in rec { ObserveCounts(Gathered(front, f), rec[f], kind); }
      hide Met, Gathered, Observe, CountOf, KindOf, AllNames;
    }
  }

  /** The longest length it remembers is that of some value, if any value has one. */
  lemma {:induction false} GatheredLongest(records: seq<Rec>, f: Text)
    ensures var e := Gathered(records, f);
      if HasLength(records, f) then Longest(records, f, e.maxLen) else e.maxLen == 0
  {
    if records != [] {
      var n := |records| - 1;
      var front, rec := records[..n], records[n];
      assert front + [rec] == records;
      GatheredLongest(front, f);
      LongestNext(front, rec, f, Gathered(front, f).maxLen);
      GatheredNext(front, rec);
      if f in rec { ObserveCounts(Gathered(front, f), rec[f], Texts); }
      hide Gathered, Observe, Longest, HasLength, AllNames;
    }
  }

  /** Some value of the field has a length. */
  ghost predicate HasLength(records: seq<Rec>, f: Text) {
    Met(records, f, Texts) || Met(records, f, Bytes)
  }

  lemma LengthOfKind(v: Value)
    ensures Length(v).Some? <==> !v.Null? && KindOf(v) in {Texts, Bytes}
  {
  }

  lemma LongestNext(records: seq<Rec>, rec: Rec, f: Text, n: nat)
    requires if HasLength(records, f) then Longest(records, f, n) else n == 0
    ensures var all := records + [rec];
      if Holds(rec, f) && Length(rec[f]).Some? then HasLength(all, f) && Longest(all, f, Max(n, Length(rec[f]).value))
      else (HasLength(all, f) <==> HasLength(records, f)) && (HasLength(records, f) ==> Longest(all, f, n))
  {
    LengthNext(records, rec, f);
    if HasLength(records, f) {
      hide HasLength;
      LongestGrows(records, rec, f, n);
    } else {
      LengthsNone(records, f);
      hide HasLength;
      LongestFirst(records, rec, f);
    }
  }

  lemma LengthNext(records: seq<Rec>, rec: Rec, f: Text)
    ensures HasLength(records + [rec], f) <==> HasLength(records, f) || (Holds(rec, f) && Length(rec[f]).Some?)
  {
    MetNext(records, rec, f, Texts);
    MetNext(records, rec, f, Bytes);
    if Holds(rec, f) { LengthOfKind(rec[f]); }
    hide Met, KindOf, Length;
  }

  lemma LengthsNone(records: seq<Rec>, f: Text)
    requires !HasLength(records, f)
    ensures forall i | 0 <= i < |records| && Holds(records[i], f) :: Length(records[i][f]).None?
  {
    forall i | 0 <= i < |records| && Holds(records[i], f) ensures Length(records[i][f]).None? {
      LengthOfKind(records[i][f]);
    }
  }

  lemma LongestGrows(records: seq<Rec>, rec: Rec, f: Text, n: nat)
    requires Longest(records, f, n)
    ensures var all := records + [rec];
      Longest(all, f, if Holds(rec, f) && Length(rec[f]).Some? then Max(n, Length(rec[f]).value) else n)
  {
    hide Length;
    var all := records + [rec];
    assert all[|records|] == rec && forall i | 0 <= i < |records| :: all[i] == records[i];
    var i :| 0 <= i < |records| && Holds(records[i], f) && Length(records[i][f]) == Some(n);
    assert Holds(all[i], f) && Length(all[i][f]) == Some(n);
    if Holds(rec, f) {
      assert Holds(all[|records|], f);
    }
  }

  lemma LongestFirst(records: seq<Rec>, rec: Rec, f: Text)
    requires forall i | 0 <= i < |records| && Holds(records[i], f) :: Length(records[i][f]).None?
    ensures Holds(rec, f) && Length(rec[f]).Some? ==> Longest(records + [rec], f, Max(0, Length(rec[f]).value))
  {
    hide Length;
    var all := records + [rec];
    assert all[|records|] == rec && forall i | 0 <= i < |records| :: all[i] == records[i];
    if Holds(rec, f) {
      assert Holds(all[|records|], f);
    }
  }

  /** Only these kinds, read kind by kind. */
  lemma OnlyIs(records: seq<Rec>, f: Text, kinds: set<Kind>)
    ensures Only(records, f, kinds) <==>
      && ((Bools in kinds && Met(records, f, Bools)) || (Signed in kinds && Met(records, f, Signed))
          || (Unsigned in kinds && Met(records, f, Unsigned)) || (Floats in kinds && Met(records, f, Floats))
          || (Texts in kinds && Met(records, f, Texts)) || (Bytes in kinds && Met(records, f, Bytes))
          || (Others in kinds && Met(records, f, Others)))
      && (Met(records, f, Bools) ==> Bools in kinds) && (Met(records, f, Signed) ==> Signed in kinds)
      && (Met(records, f, Unsigned) ==> Unsigned in kinds) && (Met(records, f, Floats) ==> Floats in kinds)
      && (Met(records, f, Texts) ==> Texts in kinds) && (Met(records, f, Bytes) ==> Bytes in kinds)
      && (Met(records, f, Others) ==> Others in kinds)
  {
    hide Met;
    forall kind | Met(records, f, kind)
      ensures kind == Bools || kind == Signed || kind == Unsigned || kind == Floats || kind == Texts || kind == Bytes || kind == Others
    {
    }
  }

  /** The slot for a length, within 32 bits. */
  lemma WidthIs(content: nat)
    requires content <= LONGEST
    ensures var c := if content == 0 then 1 else content;
      WidthFor(content) == c + (if c <= 252 then 1 else if c <= 65532 then 2 else 4) + 1
  {
  }

  /** A field is settled exactly when its values are of one kind, and on the type of that kind. */
  lemma SettledIs(records: seq<Rec>, headroom: nat, f: Text)
    requires Short(records, headroom) && headroom <= LONGEST
    ensures var ty := Settled(Gathered(records, f), headroom);
      (ty.Some? <==> OneKind(records, f)) && (ty.Some? ==> TypeIs(records, headroom, f, ty.value))
  {
    hide *;
    var e := Gathered(records, f);
    CountsMet(records, f, e);
    GatheredLongest(records, f);
    LengthIsMet(records, f);
    GatheredShort(records, headroom, f);
    WidthIs(e.maxLen + headroom);
    SettledByMet(records, headroom, f, e);
  }

  lemma LengthIsMet(records: seq<Rec>, f: Text)
    ensures HasLength(records, f) <==> Met(records, f, Texts) || Met(records, f, Bytes)
  {
  }

  lemma CountsMet(records: seq<Rec>, f: Text, e: Evidence)
    requires e == Gathered(records, f)
    ensures (e.bools > 0 <==> Met(records, f, Bools)) && (e.ints > 0 <==> Met(records, f, Signed))
    ensures (e.uints > 0 <==> Met(records, f, Unsigned)) && (e.floats > 0 <==> Met(records, f, Floats))
    ensures (e.strings > 0 <==> Met(records, f, Texts)) && (e.blobs > 0 <==> Met(records, f, Bytes))
    ensures e.other > 0 <==> Met(records, f, Others)
  {
    hide Met, Gathered;
    GatheredMet(records, f, Bools);
    GatheredMet(records, f, Signed);
    GatheredMet(records, f, Unsigned);
    GatheredMet(records, f, Floats);
    GatheredMet(records, f, Texts);
    GatheredMet(records, f, Bytes);
    GatheredMet(records, f, Others);
  }

  lemma SettledByMet(records: seq<Rec>, headroom: nat, f: Text, e: Evidence)
    requires (e.bools > 0 <==> Met(records, f, Bools)) && (e.ints > 0 <==> Met(records, f, Signed))
    requires (e.uints > 0 <==> Met(records, f, Unsigned)) && (e.floats > 0 <==> Met(records, f, Floats))
    requires (e.strings > 0 <==> Met(records, f, Texts)) && (e.blobs > 0 <==> Met(records, f, Bytes))
    requires e.other > 0 <==> Met(records, f, Others)
    requires Met(records, f, Texts) || Met(records, f, Bytes) ==> Longest(records, f, e.maxLen)
    requires var c := if e.maxLen + headroom == 0 then 1 else e.maxLen + headroom;
      WidthFor(e.maxLen + headroom) == c + (if c <= 252 then 1 else if c <= 65532 then 2 else 4) + 1
    ensures var ty := Settled(e, headroom);
      (ty.Some? <==> OneKind(records, f)) && (ty.Some? ==> TypeIs(records, headroom, f, ty.value))
  {
    OnlyIs(records, f, {Bools});
    OnlyIs(records, f, {Signed, Unsigned});
    OnlyIs(records, f, {Unsigned});
    OnlyIs(records, f, {Floats});
    OnlyIs(records, f, {Texts});
    OnlyIs(records, f, {Bytes});
    hide Met, Longest, WidthFor, Only;
  }

  /** The fields an inferred schema has, from the sample: which they are, of what type, and which may be missing. */
  lemma FieldsFromSample(records: seq<Rec>, headroom: nat, names: seq<Text>)
    requires Short(records, headroom) && headroom <= LONGEST && Enumerates(names, AllNames(records))
    ensures var s := Inferred(records, headroom, names);
      && (forall f :: Names(s, f) <==> OneKind(records, f))
      && (forall i | 0 <= i < |s.fields| ::
           && TypeIs(records, headroom, s.fields[i].name, s.fields[i].ty)
           && (s.fields[i].nullable <==> exists j | 0 <= j < |records| :: !Holds(records[j], s.fields[i].name)))
  {
    var s := Inferred(records, headroom, names);
    InferredIsFrozen(records, headroom, names);
    FrozenAll(records, headroom, names);
    hide Inferred, Gathered, Settled, OneKind, TypeIs, Holds, Short, Frozen;
    forall i | 0 <= i < |s.fields|
      ensures FrozenFrom(records, headroom, s.fields[i]) && s.fields[i].name in names
      ensures TypeIs(records, headroom, s.fields[i].name, s.fields[i].ty)
      ensures s.fields[i].nullable <==> exists j | 0 <= j < |records| :: !Holds(records[j], s.fields[i].name)
    {
      FrozenAt(records, headroom, names, i);
      SettledIs(records, headroom, s.fields[i].name);
      GatheredSaw(records, s.fields[i].name);
      SomeRecord(records, s.fields[i].name);
    }
    forall f ensures Names(s, f) <==> OneKind(records, f) {
      SettledIs(records, headroom, f);
      if OneKind(records, f) {
        OneKindMet(records, f);
        assert FieldFor(records, headroom, f).Some?;
      }
    }
  }

  lemma SomeRecord(records: seq<Rec>, f: Text)
    requires OneKind(records, f)
    ensures records != []
  {
  }

  lemma OneKindMet(records: seq<Rec>, f: Text)
    requires OneKind(records, f)
    ensures f in AllNames(records)
  {
    var kind :| Met(records, f, kind);
    var i :| 0 <= i < |records| && Holds(records[i], f) && KindOf(records[i][f]) == kind;
    assert f in records[i];
  }

  /**
   * How rigid an inferred schema is: fixed exactly when there is a sample, some field of it has
   * one kind and every field does; dynamic exactly when none does; declared otherwise.
   */
  lemma ModeFromSample(records: seq<Rec>, headroom: nat, names: seq<Text>)
    requires Short(records, headroom) && headroom <= LONGEST && Enumerates(names, AllNames(records))
    ensures var s := Inferred(records, headroom, names);
      && (s.mode.Fixed? <==> (exists f :: OneKind(records, f)) && forall f | f in AllNames(records) :: OneKind(records, f))
      && (s.mode.Dynamic? <==> !exists f :: OneKind(records, f))
      && !s.mode.Strict?
  {
    var s := Inferred(records, headroom, names);
    FieldsFromSample(records, headroom, names);
    InferredIsFrozen(records, headroom, names);
    FullExactly(records, headroom, names);
    hide Frozen, Gathered, Settled, OneKind, TypeIs, Holds, Short;
    if s.fields != [] {
      assert Names(s, s.fields[0].name);
      SomeRecord(records, s.fields[0].name);
    }
    assert (exists f :: OneKind(records, f)) <==> s.fields != [];
  }

  /** Nothing falls out exactly when every name is frozen. */
  lemma {:induction false} FullExactly(records: seq<Rec>, headroom: nat, names: seq<Text>)
    requires Short(records, headroom) && headroom <= LONGEST
    ensures |Frozen(records, headroom, names)| == |names| <==> forall f | f in names :: OneKind(records, f)
  {
    if names != [] {
      var n := |names| - 1;
      FullExactly(records, headroom, names[..n]);
      SettledIs(records, headroom, names[n]);
      hide Gathered, Settled, OneKind, TypeIs, Short;
      assert names == names[..n] + [names[n]];
    }
  }

  /** A value that a field of some type has room and a meaning for, from what the sample holds there. */
  ghost predicate Takes(records: seq<Rec>, headroom: nat, f: Text, v: Value) {
    || (Only(records, f, {Bools}) && v.Bool?)
    || (Only(records, f, {Signed, Unsigned}) && Met(records, f, Signed) && (v.I64? || v.U64?))
    || (Only(records, f, {Unsigned}) && (v.U64? || (v.I64? && v.n >= 0)))
    || (Only(records, f, {Floats}) && (v.F64? || v.I64? || v.U64?))
    || (Only(records, f, {Texts}) && v.Str? && exists n: nat :: Longest(records, f, n) && |v.text| <= n + headroom + 4)
    || (Only(records, f, {Bytes}) && v.Blob? && exists n: nat :: Longest(records, f, n) && |v.blob| <= n + headroom + 4)
  }

  /**
   * An inferred schema refuses whatever the sample gives it reason to: a record without a field
   * every sampled one held, one holding in a field what its values there are no reason to take,
   * and, where every field is of one kind, one with a field no sampled record had.
   */
  lemma InferenceRefuses(records: seq<Rec>, headroom: nat, names: seq<Text>, r: Rec)
    requires Short(records, headroom) && headroom <= LONGEST && Enumerates(names, AllNames(records))
    requires Accepts(Inferred(records, headroom, names), r)
    ensures forall f | OneKind(records, f) ::
      if Holds(r, f) then Takes(records, headroom, f, r[f]) else exists i | 0 <= i < |records| :: !Holds(records[i], f)
    ensures (exists f :: OneKind(records, f)) && (forall f | f in AllNames(records) :: OneKind(records, f)) ==>
      forall f | f in r :: f in AllNames(records)
  {
    var s := Inferred(records, headroom, names);
    FieldsFromSample(records, headroom, names);
    ModeFromSample(records, headroom, names);
    hide Inferred, OneKind, TypeIs, Takes, Short;
    forall f | OneKind(records, f)
      ensures if Holds(r, f) then Takes(records, headroom, f, r[f]) else exists i | 0 <= i < |records| :: !Holds(records[i], f)
    {
      assert Names(s, f);
      var i :| 0 <= i < |s.fields| && s.fields[i].name == f;
      assert FieldTakes(s.fields[i], r);
      if Holds(r, f) {
        TypeTakes(records, headroom, s.fields[i], r);
      }
    }
    if s.mode.Fixed? {
      forall f | f in r ensures f in AllNames(records) {
        assert Names(s, f);
        OneKindMet(records, f);
      }
    }
  }

  lemma TypeTakes(records: seq<Rec>, headroom: nat, def: FieldDef, r: Rec)
    requires TypeIs(records, headroom, def.name, def.ty) && FieldTakes(def, r) && Holds(r, def.name)
    ensures Takes(records, headroom, def.name, r[def.name])
  {
    hide Only, Met, Longest;
    if IsText(def.ty) {
      var n: nat :| Longest(records, def.name, n) &&
        var content := if n + headroom == 0 then 1 else n + headroom;
        def.ty.width == content + (if content <= 252 then 1 else if content <= 65532 then 2 else 4) + 1;
    }
  }

  // -- the loops -----------------------------------------------------------

  ghost predicate GatheredAll(evidence: map<Text, Evidence>, records: seq<Rec>) {
    evidence.Keys == AllNames(records) && forall f | f in evidence :: evidence[f] == Gathered(records, f)
  }

  lemma {:induction false} NeverMet(records: seq<Rec>, f: Text)
    requires f !in AllNames(records)
    ensures Gathered(records, f) == NONE_YET
  {
    if records != [] {
      var n := |records| - 1;
      assert forall i | 0 <= i < n :: records[..n][i] == records[i];
      assert f !in records[n];
      assert f !in AllNames(records[..n]);
      NeverMet(records[..n], f);
    }
  }

  method Gather(records: seq<Rec>) returns (evidence: map<Text, Evidence>)
    ensures GatheredAll(evidence, records)
  {
    evidence := map[];
    for n := 0 to |records|
      invariant GatheredAll(evidence, records[..n])
    {
      evidence := GatherRecord(evidence, records[..n], records[n]);
      assert records[..n + 1] == records[..n] + [records[n]];
    }
    assert records[..|records|] == records;
  }

  method GatherRecord(before: map<Text, Evidence>, ghost records: seq<Rec>, rec: Rec) returns (evidence: map<Text, Evidence>)
    requires GatheredAll(before, records)
    ensures GatheredAll(evidence, records + [rec])
  {
    evidence := before;
    var names := ToSeq(rec.Keys);
    hide Observe, Gathered, GatheredAll;
    Unmet(before, records);
    for i := 0 to |names|
      invariant forall f :: f in evidence <==> f in before || f in names[..i]
      invariant forall f | f in evidence :: evidence[f] == if f in names[..i] then Observe(Known(before, f), rec[f]) else before[f]
    {
      var f := names[i];
      assert names[..i + 1] == names[..i] + [f] && f !in names[..i];
      evidence := evidence[f := Observe(Known(evidence, f), rec[f])];
    }
    assert names[..|names|] == names;
    GatheredNext(records, rec);
    RecordGathered(before, records, rec, evidence);
  }

  /** `entry(name).or_default()`. */
  function Known(evidence: map<Text, Evidence>, f: Text): Evidence {
    if f in evidence then evidence[f] else NONE_YET
  }

  lemma Unmet(evidence: map<Text, Evidence>, records: seq<Rec>)
    requires GatheredAll(evidence, records)
    ensures forall f :: Known(evidence, f) == Gathered(records, f)
  {
    hide Gathered;
    forall f ensures Known(evidence, f) == Gathered(records, f) {
      if f !in evidence {
        NeverMet(records, f);
      }
    }
  }

  lemma RecordGathered(before: map<Text, Evidence>, records: seq<Rec>, rec: Rec, evidence: map<Text, Evidence>)
    requires GatheredAll(before, records) && evidence.Keys == before.Keys + rec.Keys
    requires forall f :: Known(before, f) == Gathered(records, f)
    requires forall f | f in evidence :: evidence[f] == if f in rec then Observe(Known(before, f), rec[f]) else before[f]
    ensures GatheredAll(evidence, records + [rec])
  {
    hide Observe, Gathered;
    GatheredNext(records, rec);
  }

  lemma GatheredNext(records: seq<Rec>, rec: Rec)
    ensures AllNames(records + [rec]) == AllNames(records) + rec.Keys
    ensures forall f :: Gathered(records + [rec], f) == if f in rec then Observe(Gathered(records, f), rec[f]) else Gathered(records, f)
  {
    var all := records + [rec];
    assert all[..|records|] == records;
    forall f ensures f in AllNames(all) <==> f in AllNames(records) || f in rec {
      if f in rec {
        assert f in all[|records|];
      }
      if f in AllNames(records) {
        var i :| 0 <= i < |records| && f in records[i];
        assert f in all[i];
      }
    }
  }

  method Infer(records: seq<Rec>, headroom: nat) returns (s: Schema, names: seq<Text>)
    ensures Enumerates(names, AllNames(records))
    ensures s == Inferred(records, headroom, names)
  {
    var evidence := Gather(records);
    var order := ToSeq(evidence.Keys);
    names := order;
    var fields: seq<FieldDef> := [];
    var rejected := 0;
    for i := 0 to |order|
      invariant fields == Frozen(records, headroom, order[..i])
      invariant |fields| + rejected == i
    {
      assert order[..i + 1][..i] == order[..i];
      hide Gathered, Settled;
      var e := evidence[order[i]];
      match Settled(e, headroom)
      case Some(ty) =>
        fields := fields + [FieldDef(order[i], ty, !(e.present == |records| && |records| > 0))];
      case None =>
        rejected := rejected + 1;
    }
    assert order[..|order|] == order;
    hide Gathered, Settled, Frozen;
    var mode :=
      if |records| > 0 && rejected == 0 && fields != [] then Fixed
      else if fields == [] then Dynamic
      else Declared;
    if mode == Dynamic {
      return Schema(Dynamic, []), names;
    }
    var ok := Validate(Schema(mode, fields));
    if ok {
      return Schema(mode, fields), names;
    }
    ok := Validate(Schema(Declared, fields));
    s := if ok then Schema(Declared, fields) else Schema(Dynamic, []);
  }
}
