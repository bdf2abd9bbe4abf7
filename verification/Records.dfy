/** Records as the engine stores them: finite maps from field name to value. */
module Records {
  import opened Basics
  import opened Varint
  import Floats
  import Numerics
  import S = Sorting

  /** A timestamp, byte string, list or map: what neither counts as a number nor has a typed column. */
  type Thing(==, !new)

  /** A non-null value, as it was written. */
  datatype Atom =
    | Bool(b: bool)
    | I64(i: i64)
    | U64(u: u64)
    | F64(f: Floats.Float)
    | Dec(x: Numerics.Exact)
    | Str(s: string)
    | Other(thing: Thing)

  datatype Cell = Null | Is(atom: Atom)

  type Record = map<string, Cell>

  /** A record and its id. */
  datatype Row = Row(id: nat, rec: Record)

  /** A record's address: its collection and its id. */
  datatype Key = Key(coll: string, id: nat)

  /** The live records. */
  type Contents = map<Key, Record>

  /** Top-level nulls are dropped before anything is stored. */
  function Normalize(r: Record): Record {
    map f | f in r && r[f] != Null :: r[f]
  }

  /** The value of a field, where absence and null read alike. */
  function Field(r: Record, f: string): Option<Atom> {
    if f in r && r[f].Is? then Some(r[f].atom) else None
  }

  // -- equality and hashing ------------------------------------------------

  /** One representative for the values the engine calls equal, and the hash it gives each value. */
  datatype Keying = Keying(canon: Atom -> Atom, hash: Atom -> nat)

  /** What a hash map tells values apart by. */
  datatype HashKey = HashKey(value: Atom, hash: nat)

  function Hashed(kg: Keying, a: Atom): HashKey {
    HashKey(kg.canon(a), kg.hash(a))
  }

  /** What every hash map relies on: equal values hash alike. */
  ghost predicate HashesAlike(kg: Keying) {
    forall a, b :: kg.canon(a) == kg.canon(b) ==> kg.hash(a) == kg.hash(b)
  }

  /** The key a record's field is kept under in a hash map, if the field holds anything. */
  function Filed(kg: Keying, r: Record, f: string): Option<HashKey> {
    match Field(r, f) case None => None case Some(a) => Some(Hashed(kg, a))
  }

  /** Where equal values hash alike, hash keys tell values apart exactly as equality does. */
  lemma HashedIsEqual(kg: Keying, a: Atom, b: Atom)
    requires HashesAlike(kg)
    ensures Hashed(kg, a) == Hashed(kg, b) <==> kg.canon(a) == kg.canon(b)
  {
  }

  // -- the order of values -------------------------------------------------

  type Compare = (Atom, Atom) -> S.Ordering

  /** Null is the least value. */
  function CellOrder(cmp: Compare, x: Cell, y: Cell): S.Ordering {
    match (x, y)
    case (Null, Null) => S.Equal
    case (Null, Is(_)) => S.Less
    case (Is(_), Null) => S.Greater
    case (Is(a), Is(b)) => cmp(a, b)
  }

  /** What a cell may hold: null, or a value of the kind. */
  predicate CellOn(on: Atom -> bool, c: Cell) {
    c.Is? ==> on(c.atom)
  }

  lemma CellLawful(cmp: Compare, on: Atom -> bool, x: Cell, y: Cell, z: Cell)
    requires S.LawfulOn(cmp, on) && CellOn(on, x) && CellOn(on, y) && CellOn(on, z)
    ensures CellOrder(cmp, y, x) == S.Flip(CellOrder(cmp, x, y))
    ensures CellOrder(cmp, x, y) != S.Greater && CellOrder(cmp, y, z) != S.Greater ==> CellOrder(cmp, x, z) != S.Greater
  {
  }
}
