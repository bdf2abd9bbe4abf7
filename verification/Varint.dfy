/**
 * Unsigned LEB128 (section 7.6 of DWARF Version 5) and zigzag, in the two
 * dialects the engine reads: the column store's, which trusts its own bytes,
 * and the storage codec's, which does not.
 */
module Varint {
  import opened Basics

  const TWO63: int := 0x8000_0000_0000_0000
  const TWO64: int := 0x1_0000_0000_0000_0000

  type byte = x: int | 0 <= x < 256
  type u64 = x: int | 0 <= x < TWO64
  type i64 = x: int | -TWO63 <= x < TWO63

  type Bytes = seq<byte>

  /** Two's-complement wrap-around: what `as i64` and unchecked `i64` arithmetic do. */
  function Wrap(x: int): (r: i64)
    ensures (x - r) % TWO64 == 0
    ensures -TWO63 <= x < TWO63 ==> r == x
  {
    var m := x % TWO64;
    if m < TWO63 then m else m - TWO64
  }

  /** The low 64 bits. */
  function Low64(x: nat): (r: u64)
    ensures x < TWO64 ==> r == x
  {
    x % TWO64
  }

  /** `(n << 1) ^ (n >> 63)`: the sign-extended shift is all ones exactly for a negative `n`. */
  function Zigzag(n: i64): u64 {
    var shifted := (2 * n) % TWO64;
    if n < 0 then TWO64 - 1 - shifted else shifted
  }

  /** `(v >> 1) ^ -(v & 1)`. */
  function Unzigzag(v: u64): i64 {
    if v % 2 == 0 then v / 2 else -(v / 2) - 1
  }

  lemma ZigzagRoundTrip(n: i64)
    ensures Unzigzag(Zigzag(n)) == n
    ensures Zigzag(n) == TWO64 - 1 <==> n == -TWO63
  {
    if n < 0 {
      assert (2 * n) % TWO64 == 2 * n + TWO64;
    } else {
      assert (2 * n) % TWO64 == 2 * n;
    }
  }

  /** The encoding of `v`: seven bits a byte, low bits first, the top bit marking continuation. */
  function Encode(v: nat): (b: Bytes)
    ensures b != []
    ensures b[0] == 0 <==> v == 0
  {
    if v < 128 then [v] else [v % 128 + 128] + Encode(v / 128)
  }

  method Write(v: u64, out: Bytes) returns (out': Bytes)
    ensures out' == out + Encode(v)
  {
    out' := out;
    var rest := v;
    while true
      invariant 0 <= rest < TWO64
      invariant out' + Encode(rest) == out + Encode(v)
      decreases rest
    {
      var low := rest % 128;
      ghost var before := rest;
      rest := rest / 128;
      if rest == 0 {
        out' := out' + [low];
        assert Encode(before) == [low];
        return;
      }
      assert Encode(before) == [low + 128] + Encode(rest);
      out' := out' + [low + 128];
    }
  }

  lemma {:induction false} EncodeLength(v: nat, n: nat)
    requires v < Pow128(n) && n > 0
    ensures |Encode(v)| <= n
  {
    if v >= 128 {
      assert v / 128 < Pow128(n - 1);
      EncodeLength(v / 128, n - 1);
    }
  }

  function Pow128(n: nat): (p: nat)
    ensures p > 0
  {
    if n == 0 then 1 else 128 * Pow128(n - 1)
  }

  lemma EncodeShort(v: u64)
    ensures |Encode(v)| <= 10
  {
    assert Pow128(10) == 128 * 128 * 128 * 128 * 128 * 128 * 128 * 128 * 128 * 128;
    EncodeLength(v, 10);
  }

  // -- the trusting reader -------------------------------------------------

  /** The value and length of the first run of groups; a run cut short yields what is there. */
  function Read(buf: Bytes): (nat, nat) {
    if buf == [] then (0, 0)
    else if buf[0] < 128 then (buf[0], 1)
    else
      var (v, n) := Read(buf[1..]);
      (buf[0] % 128 + 128 * v, n + 1)
  }

  lemma {:induction false} ReadEncoded(v: nat, suffix: Bytes)
    ensures Read(Encode(v) + suffix) == (v, |Encode(v)|)
  {
    hide *;
    EncodeGroups(v);
    if v < 128 {
      ReadLast(v, suffix);
    } else {
      var low, high := v % 128, v / 128;
      ReadEncoded(high, suffix);
      ReadGroup(low, Encode(high) + suffix);
      assert [low + 128] + Encode(high) + suffix == [low + 128] + (Encode(high) + suffix);
    }
  }

  lemma EncodeGroups(v: nat)
    ensures Encode(v) == if v < 128 then [v] else [v % 128 + 128] + Encode(v / 128)
    ensures v == v % 128 + 128 * (v / 128)
  {
  }

  lemma ReadLast(v: nat, suffix: Bytes)
    requires v < 128
    ensures Read([v] + suffix) == (v, 1)
  {
  }

  lemma ReadNext(rest: Bytes)
    requires rest != []
    ensures rest[0] < 128 ==> Read(rest) == (rest[0] % 128, 1)
    ensures rest[0] >= 128 ==> Read(rest) == (rest[0] % 128 + 128 * Read(rest[1..]).0, Read(rest[1..]).1 + 1)
  {
  }

  lemma NothingRead()
    ensures Read([]) == (0, 0)
  {
  }

  lemma ReadGroup(low: nat, rest: Bytes)
    requires low < 128
    ensures Read([low + 128] + rest) == (low + 128 * Read(rest).0, Read(rest).1 + 1)
  {
    hide Read;
    var all := [low + 128] + rest;
    assert all[1..] == rest && all[0] == low + 128;
    assert (low + 128) % 128 == low;
    ReadNext(all);
  }

  /** The loop over groups with a growing shift; ten groups never shift past 63. */
  method ReadFrom(buf: Bytes, start: nat) returns (v: nat, used: nat)
    requires start <= |buf|
    ensures (v, used) == Read(buf[start..]) && start + used <= |buf|
  {
    hide Read;
    NothingRead();
    var scale := 1;
    v, used := 0, 0;
    var done := false;
    while start + used < |buf| && !done
      invariant start + used <= |buf| && scale > 0
      invariant var (w, n) := Read(buf[start..]);
        if done then (v, used) == (w, n)
        else var (w', n') := Read(buf[start + used..]); w == v + scale * w' && n == used + n'
      decreases |buf| - start - used, !done
    {
      var b := buf[start + used];
      ghost var rest := buf[start + used..];
      assert rest[1..] == buf[start + used + 1..];
      ReadNext(rest);
      ScaleStep(scale, b % 128, Read(rest[1..]).0);
      v := v + b % 128 * scale;
      used := used + 1;
      if b < 128 {
        done := true;
      } else {
        scale := scale * 128;
      }
    }
  }

  lemma ScaleStep(scale: nat, low: nat, high: nat)
    ensures scale * (low + 128 * high) == low * scale + scale * 128 * high
    ensures scale * low == low * scale
  {
  }
}
