/**
 * A set of ids as bits packed 64 to a word, with the machine's own word
 * operations, and the loop that lists a set by clearing its lowest bit.
 */
module Bitsets {
  import opened Varint

  // -- words ---------------------------------------------------------------

  predicate Bit(w: nat, i: nat) {
    if i == 0 then w % 2 == 1 else Bit(w / 2, i - 1)
  }

  function Pow2(n: nat): (p: nat)
    ensures p > 0
  {
    if n == 0 then 1 else 2 * Pow2(n - 1)
  }

  function Or(a: nat, b: nat): nat
    decreases a + b
  {
    if a == 0 && b == 0 then 0
    else 2 * Or(a / 2, b / 2) + (if a % 2 == 1 || b % 2 == 1 then 1 else 0)
  }

  function And(a: nat, b: nat): nat
    decreases a + b
  {
    if a == 0 && b == 0 then 0
    else 2 * And(a / 2, b / 2) + (if a % 2 == 1 && b % 2 == 1 then 1 else 0)
  }

  function Not(w: u64): u64 {
    TWO64 - 1 - w
  }

  /** The index of the lowest set bit. */
  function TrailingZeros(w: nat): nat
    requires w > 0
  {
    if w % 2 == 1 then 0 else 1 + TrailingZeros(w / 2)
  }

  lemma {:induction false} ZeroBits(i: nat)
    ensures !Bit(0, i)
  {
    if i > 0 {
      ZeroBits(i - 1);
    }
  }

  lemma {:induction false} BitOr(a: nat, b: nat, i: nat)
    ensures Bit(Or(a, b), i) <==> Bit(a, i) || Bit(b, i)
    decreases a + b
  {
    if a == 0 && b == 0 {
      ZeroBits(i);
    } else {
      assert Or(a, b) / 2 == Or(a / 2, b / 2);
      if i > 0 {
        BitOr(a / 2, b / 2, i - 1);
      }
    }
  }

  lemma {:induction false} BitAnd(a: nat, b: nat, i: nat)
    ensures Bit(And(a, b), i) <==> Bit(a, i) && Bit(b, i)
    decreases a + b
  {
    if a == 0 && b == 0 {
      ZeroBits(i);
    } else {
      assert And(a, b) / 2 == And(a / 2, b / 2);
      if i > 0 {
        BitAnd(a / 2, b / 2, i - 1);
      }
    }
  }

  lemma {:induction false} BitPow2(k: nat, i: nat)
    ensures Bit(Pow2(k), i) <==> i == k
  {
    if k == 0 {
      if i > 0 {
        ZeroBits(i - 1);
      }
    } else {
      assert Pow2(k) == 2 * Pow2(k - 1);
      if i > 0 {
        BitPow2(k - 1, i - 1);
      }
    }
  }

  /** A word of `n` bits, complemented. */
  lemma {:induction false} BitComplement(w: nat, n: nat, i: nat)
    requires w < Pow2(n) && i < n
    ensures Bit(Pow2(n) - 1 - w, i) <==> !Bit(w, i)
    decreases n
  {
    if i > 0 {
      BitComplement(w / 2, n - 1, i - 1);
      assert (Pow2(n) - 1 - w) / 2 == Pow2(n - 1) - 1 - w / 2;
    }
  }

  lemma {:induction false} NoHighBits(w: nat, n: nat, i: nat)
    requires w < Pow2(n) && i >= n
    ensures !Bit(w, i)
    decreases n
  {
    if n == 0 {
      ZeroBits(i);
    } else {
      NoHighBits(w / 2, n - 1, i - 1);
    }
  }

  lemma {:induction false} OrBound(a: nat, b: nat, n: nat)
    requires a < Pow2(n) && b < Pow2(n)
    ensures Or(a, b) < Pow2(n)
    decreases n
  {
    if n > 0 {
      OrBound(a / 2, b / 2, n - 1);
    }
  }

  lemma {:induction false} AndBound(a: nat, b: nat)
    ensures And(a, b) <= a
    decreases a + b
  {
    if a != 0 || b != 0 {
      AndBound(a / 2, b / 2);
    }
  }

  lemma EightMore(n: nat)
    ensures Pow2(n + 8) == 256 * Pow2(n)
  {
    assert Pow2(n + 8) == 2 * Pow2(n + 7) == 4 * Pow2(n + 6) == 8 * Pow2(n + 5) == 16 * Pow2(n + 4);
    assert Pow2(n + 4) == 2 * Pow2(n + 3) == 4 * Pow2(n + 2) == 8 * Pow2(n + 1) == 16 * Pow2(n);
  }

  lemma WordSize()
    ensures Pow2(64) == TWO64
  {
    EightMore(0);
    EightMore(8);
    EightMore(16);
    EightMore(24);
    EightMore(32);
    EightMore(40);
    EightMore(48);
    EightMore(56);
  }

  lemma {:induction false} Pow2Grows(k: nat, n: nat)
    requires k < n
    ensures Pow2(k) < Pow2(n)
    decreases n
  {
    if k < n - 1 {
      Pow2Grows(k, n - 1);
    }
  }

  lemma {:induction false} SomeBit(w: nat) returns (i: nat)
    requires w > 0
    ensures Bit(w, i) && i == TrailingZeros(w)
    ensures forall j :: 0 <= j < i ==> !Bit(w, j)
  {
    if w % 2 == 1 {
      i := 0;
    } else {
      var j := SomeBit(w / 2);
      i := j + 1;
      forall k | 0 <= k < i ensures !Bit(w, k) {
        if k > 0 {
          assert !Bit(w / 2, k - 1);
        }
      }
    }
  }

  /** `w & (w - 1)` is `w` without its lowest set bit, and smaller. */
  lemma {:induction false} ClearLowest(w: nat, i: nat)
    requires w > 0
    ensures And(w, w - 1) < w
    ensures Bit(And(w, w - 1), i) <==> Bit(w, i) && i != TrailingZeros(w)
    decreases w
  {
    var v := And(w, w - 1);
    assert v / 2 == And(w / 2, (w - 1) / 2);
    if w % 2 == 1 {
      AndBound(w / 2, w / 2);
      if i > 0 {
        BitAnd(w / 2, w / 2, i - 1);
      }
    } else {
      assert (w - 1) / 2 == w / 2 - 1;
      ClearLowest(w / 2, if i > 0 then i - 1 else 0);
    }
  }

  // -- sets ----------------------------------------------------------------

  /** As many words as the highest id set so far needs. */
  type Bits = seq<u64>

  predicate Has(b: Bits, id: nat) {
    id / 64 < |b| && Bit(b[id / 64], id % 64)
  }

  function Grown(b: Bits, n: nat): (r: Bits)
    ensures |r| == if n < |b| then |b| else n
    ensures forall i :: 0 <= i < |r| ==> r[i] == if i < |b| then b[i] else 0
  {
    if n <= |b| then b else b + seq(n - |b|, _ => 0)
  }

  function Set(b: Bits, id: nat): Bits {
    var g := Grown(b, id / 64 + 1);
    WordSize();
    Pow2Grows(id % 64, 64);
    OrBound(g[id / 64], Pow2(id % 64), 64);
    g[id / 64 := Or(g[id / 64], Pow2(id % 64))]
  }

  function Clear(b: Bits, id: nat): Bits {
    if id / 64 < |b| then
      WordSize();
      Pow2Grows(id % 64, 64);
      AndBound(b[id / 64], Not(Pow2(id % 64)));
      b[id / 64 := And(b[id / 64], Not(Pow2(id % 64)))]
    else b
  }

  /** The test the code makes: the word masked down to the id's bit. */
  predicate Get(b: Bits, id: nat) {
    id / 64 < |b| && And(b[id / 64], Pow2(id % 64)) != 0
  }

  predicate NoBits(b: Bits) {
    forall i | 0 <= i < |b| :: b[i] == 0
  }

  lemma SetHas(b: Bits, id: nat, j: nat)
    ensures Has(Set(b, id), j) <==> Has(b, j) || j == id
  {
    var g := Grown(b, id / 64 + 1);
    ZeroBits(j % 64);
    hide Bit, Or, Pow2;
    if j / 64 == id / 64 {
      BitOr(g[id / 64], Pow2(id % 64), j % 64);
      BitPow2(id % 64, j % 64);
    }
  }

  lemma ClearHas(b: Bits, id: nat, j: nat)
    ensures Has(Clear(b, id), j) <==> Has(b, j) && j != id
  {
    hide Bit, And, Pow2;
    if id / 64 < |b| && j / 64 == id / 64 {
      var k := id % 64;
      WordSize();
      Pow2Grows(k, 64);
      BitAnd(b[id / 64], Not(Pow2(k)), j % 64);
      BitComplement(Pow2(k), 64, j % 64);
      BitPow2(k, j % 64);
    }
  }

  lemma GetHas(b: Bits, id: nat)
    ensures Get(b, id) <==> Has(b, id)
  {
    hide Bit, And, Pow2;
    if id / 64 < |b| {
      var w, k := b[id / 64], id % 64;
      BitAnd(w, Pow2(k), k);
      BitPow2(k, k);
      ZeroBits(k);
      if And(w, Pow2(k)) != 0 {
        var i := SomeBit(And(w, Pow2(k)));
        BitAnd(w, Pow2(k), i);
        BitPow2(k, i);
      }
    }
  }

  /** The emptiness test: no word set means no id, and some word set means some id. */
  lemma EmptyHas(b: Bits)
    ensures NoBits(b) <==> forall j: nat :: !Has(b, j)
  {
    hide Bit;
    if NoBits(b) {
      forall j: nat ensures !Has(b, j) {
        ZeroBits(j % 64);
        assert j / 64 < |b| ==> b[j / 64] == 0;
      }
    } else {
      var i :| 0 <= i < |b| && b[i] != 0;
      var k := SomeBit(b[i]);
      WordSize();
      if k >= 64 {
        NoHighBits(b[i], 64, k);
      }
      assert (64 * i + k) / 64 == i && (64 * i + k) % 64 == k;
      assert Has(b, 64 * i + k);
    }
  }

  predicate Ascending(ids: seq<nat>) {
    forall i, j :: 0 <= i < j < |ids| ==> ids[i] < ids[j]
  }

  /** The ids whose word is before the `n`-th. */
  ghost predicate Listed(b: Bits, n: nat, ids: seq<nat>) {
    Ascending(ids) && forall j: nat :: j in ids <==> Has(b, j) && j / 64 < n
  }

  /** Every id, in order: the lowest bit of what is left of a word, until nothing is. */
  method Ids(b: Bits) returns (ids: seq<nat>)
    ensures Ascending(ids)
    ensures forall j: nat :: j in ids <==> Has(b, j)
  {
    ids := [];
    for wi := 0 to |b|
      invariant Listed(b, wi, ids)
    {
      ids := WordIds(b, wi, ids);
    }
  }

  method WordIds(b: Bits, wi: nat, before: seq<nat>) returns (ids: seq<nat>)
    requires wi < |b| && Listed(b, wi, before)
    ensures Listed(b, wi + 1, ids)
  {
    ids := before;
    var bits := b[wi];
    WordSize();
    while bits != 0
      invariant 0 <= bits <= b[wi]
      invariant Word(b, wi, bits, ids)
      decreases bits
    {
      var tz := TrailingZeros(bits);
      WordStep(b, wi, bits, ids);
      ids := ids + [wi * 64 + tz];
      ClearLowest(bits, 0);
      bits := And(bits, bits - 1);
    }
    WordDone(b, wi, ids);
  }

  /** The ids of earlier words, and of this one the bits below every bit still in `bits`. */
  ghost predicate Word(b: Bits, wi: nat, bits: nat, ids: seq<nat>)
    requires wi < |b|
  {
    && Ascending(ids)
    && (forall k: nat :: Bit(bits, k) ==> Bit(b[wi], k))
    && (forall j: nat :: j in ids <==> Has(b, j) && (j / 64 < wi || (j / 64 == wi && !Bit(bits, j % 64))))
    && (forall j: nat, k: nat :: j in ids && Bit(bits, k) ==> j < wi * 64 + k)
  }

  lemma WordDone(b: Bits, wi: nat, ids: seq<nat>)
    requires wi < |b| && Word(b, wi, 0, ids)
    ensures Listed(b, wi + 1, ids)
  {
    forall j: nat ensures j in ids <==> Has(b, j) && j / 64 < wi + 1 {
      ZeroBits(j % 64);
    }
  }

  lemma WordStep(b: Bits, wi: nat, bits: nat, ids: seq<nat>)
    requires wi < |b| && 0 < bits <= b[wi] && Word(b, wi, bits, ids)
    ensures Word(b, wi, And(bits, bits - 1), ids + [wi * 64 + TrailingZeros(bits)])
  {
    var next := And(bits, bits - 1);
    var tz := SomeBit(bits);
    var id := wi * 64 + tz;
    var ids' := ids + [id];
    WordSize();
    if tz >= 64 {
      NoHighBits(bits, 64, tz);
    }
    hide Bit, And, TrailingZeros;
    assert id / 64 == wi && id % 64 == tz;
    forall k: nat ensures Bit(next, k) <==> Bit(bits, k) && k != tz {
      ClearLowest(bits, k);
    }
    assert Bit(b[wi], tz) && Has(b, id);
    forall i | 0 <= i < |ids| ensures ids[i] < id {
      assert ids[i] in ids;
    }
    assert Ascending(ids');
    forall j: nat ensures j in ids' <==> Has(b, j) && (j / 64 < wi || (j / 64 == wi && !Bit(next, j % 64))) {
      assert j / 64 == wi && j % 64 == tz ==> j == id;
    }
    forall j: nat, k: nat | j in ids' && Bit(next, k) ensures j < wi * 64 + k {
      assert Bit(bits, k);
    }
  }
}
