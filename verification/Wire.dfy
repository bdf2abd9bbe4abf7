/**
 * What every byte format of the engine is built from: little-endian integers,
 * checked varints and length-prefixed text, each with a reader that refuses
 * malformed bytes, undoes the writer, and gives the same answer when more
 * bytes follow the ones it needed.
 */
module Wire {
  import opened Varint

  const TWO32: int := 0x1_0000_0000
  const TWO127: int := 0x8000_0000_0000_0000_0000_0000_0000_0000
  const TWO128: int := 0x1_0000_0000_0000_0000_0000_0000_0000_0000

  type i128 = x: int | -TWO127 <= x < TWO127

  /** A list whose length a machine word holds. */
  type Few<T> = s: seq<T> | |s| < TWO64 witness []

  /** Text, as its bytes. */
  type Text = b: Bytes | |b| < TWO64 && ValidUtf8(b) witness []

  datatype Parsed<+T> = Ok(value: T, rest: Bytes) | Bad {
    predicate IsFailure() { Bad? }
    function PropagateFailure<U>(): Parsed<U> requires Bad? { Bad }
    function Extract(): (T, Bytes) requires Ok? { (value, rest) }

    /** The same result with more bytes left over. */
    function Followed(suffix: Bytes): Parsed<T> {
      if Ok? then Ok(value, rest + suffix) else Bad
    }
  }

  predicate Suffix(rest: Bytes, b: Bytes) {
    |rest| <= |b| && rest == b[|b| - |rest|..]
  }

  // -- UTF-8 ---------------------------------------------------------------

  predicate Continues(b: byte) { 0x80 <= b < 0xC0 }

  /** Bytes in one well-formed UTF-8 character at the head of `b`, or 0: no overlong form, no surrogate, nothing past U+10FFFF. */
  function CharWidth(b: Bytes): (n: nat)
    ensures n <= |b|
  {
    if b == [] then 0
    else if b[0] < 0x80 then 1
    else if |b| < 2 || !Continues(b[1]) then 0
    else if 0xC2 <= b[0] < 0xE0 then 2
    else if |b| < 3 || !Continues(b[2]) then 0
    else if 0xE0 <= b[0] < 0xF0 then
      if (b[0] == 0xE0 && b[1] < 0xA0) || (b[0] == 0xED && b[1] >= 0xA0) then 0 else 3
    else if |b| < 4 || !Continues(b[3]) then 0
    else if 0xF0 <= b[0] < 0xF5 then
      if (b[0] == 0xF0 && b[1] < 0x90) || (b[0] == 0xF4 && b[1] >= 0x90) then 0 else 4
    else 0
  }

  predicate ValidUtf8(b: Bytes)
    decreases |b|
  {
    b == [] || (CharWidth(b) > 0 && ValidUtf8(b[CharWidth(b)..]))
  }

  // -- fixed-width integers ------------------------------------------------

  function Pow256(k: nat): (p: nat)
    ensures p > 0
  {
    if k == 0 then 1 else 256 * Pow256(k - 1)
  }

  lemma Widths()
    ensures Pow256(4) == TWO32 && Pow256(8) == TWO64 && Pow256(16) == TWO128
  {
  }

  /** The low `k` bytes of `n`, least first. */
  function LowBytes(n: nat, k: nat): (b: Bytes)
    ensures |b| == k
  {
    if k == 0 then [] else [n % 256] + LowBytes(n / 256, k - 1)
  }

  function FromLe(b: Bytes): (n: nat)
    ensures n < Pow256(|b|)
  {
    if b == [] then 0 else b[0] + 256 * FromLe(b[1..])
  }

  lemma {:induction false} LeRoundTrip(n: nat, k: nat)
    requires n < Pow256(k)
    ensures FromLe(LowBytes(n, k)) == n
  {
    if k > 0 {
      LeRoundTrip(n / 256, k - 1);
      assert LowBytes(n, k)[1..] == LowBytes(n / 256, k - 1);
    }
  }

  function ReadByte(b: Bytes): (r: Parsed<byte>)
    ensures r.Ok? ==> |r.rest| < |b| && Suffix(r.rest, b)
  {
    if b == [] then Bad else Ok(b[0], b[1..])
  }

  function Take(b: Bytes, n: nat): (r: Parsed<Bytes>)
    ensures r.Ok? ==> |r.value| == n && b == r.value + r.rest && Suffix(r.rest, b)
    ensures r.Ok? <==> n <= |b|
  {
    if n > |b| then Bad else Ok(b[..n], b[n..])
  }

  lemma TakeWhole(b: Bytes, suffix: Bytes)
    ensures Take(b + suffix, |b|) == Ok(b, suffix)
  {
  }

  lemma TakeFollowed(b: Bytes, n: nat, suffix: Bytes)
    requires Take(b, n).Ok?
    ensures Take(b + suffix, n) == Take(b, n).Followed(suffix)
  {
    assert (b + suffix)[..n] == b[..n] && (b + suffix)[n..] == b[n..] + suffix;
  }

  function ReadLe(b: Bytes, k: nat): (r: Parsed<nat>)
    ensures r.Ok? ==> r.value < Pow256(k) && |r.rest| == |b| - k && Suffix(r.rest, b)
  {
    if k > |b| then Bad else Ok(FromLe(b[..k]), b[k..])
  }

  lemma ReadLeOf(n: nat, k: nat, suffix: Bytes)
    requires n < Pow256(k)
    ensures ReadLe(LowBytes(n, k) + suffix, k) == Ok(n, suffix)
  {
    LeRoundTrip(n, k);
    assert (LowBytes(n, k) + suffix)[..k] == LowBytes(n, k);
  }

  lemma ReadLeFollowed(b: Bytes, k: nat, suffix: Bytes)
    requires ReadLe(b, k).Ok?
    ensures ReadLe(b + suffix, k) == ReadLe(b, k).Followed(suffix)
  {
    assert (b + suffix)[..k] == b[..k];
  }

  function ReadU32(b: Bytes): (r: Parsed<nat>)
    ensures r.Ok? ==> r.value < TWO32 && |r.rest| < |b| && Suffix(r.rest, b)
  {
    Widths();
    ReadLe(b, 4)
  }

  function ReadU64(b: Bytes): (r: Parsed<u64>)
    ensures r.Ok? ==> |r.rest| < |b| && Suffix(r.rest, b)
  {
    Widths();
    match ReadLe(b, 8) case Bad => Bad case Ok(n, rest) => Ok(n, rest)
  }

  /** Two's complement in 128 bits. */
  function Wrap128(x: nat): i128
    requires x < TWO128
  {
    if x < TWO127 then x else x - TWO128
  }

  // -- checked varints -----------------------------------------------------

  /** What the groups from the `i`-th on can hold. */
  function Room(i: nat): nat
    requires i <= 9
  {
    2 * Pow128(9 - i)
  }

  /** The groups from the `i`-th on: at most ten, and the tenth may carry one bit. */
  function ReadGroups(b: Bytes, i: nat): (r: Parsed<nat>)
    requires i <= 10
    ensures r.Ok? ==> i <= 9 && r.value < Room(i)
    ensures r.Ok? ==> |r.rest| < |b| && Suffix(r.rest, b)
    decreases 10 - i
  {
    if b == [] || i == 10 then Bad
    else if i == 9 && b[0] % 128 > 1 then Bad
    else if b[0] < 128 then
      assert i < 9 ==> Pow128(9 - i) == 128 * Pow128(8 - i);
      Ok(b[0], b[1..])
    else
      match ReadGroups(b[1..], i + 1)
      case Bad => Bad
      case Ok(high, rest) =>
        assert Pow128(9 - i) == 128 * Pow128(8 - i);
        Ok(b[0] % 128 + 128 * high, rest)
  }

  lemma RoomWhole()
    ensures Room(0) == TWO64
  {
  }

  function ReadVarint(b: Bytes): (r: Parsed<u64>)
    ensures r.Ok? ==> |r.rest| < |b| && Suffix(r.rest, b)
  {
    RoomWhole();
    match ReadGroups(b, 0) case Bad => Bad case Ok(v, rest) => Ok(v, rest)
  }

  /** `group << shift`, where `scale` is two to the `shift`. */
  function Worth(group: nat, scale: nat): nat { group * scale }

  /** What the remaining groups add to `v` when each unit of theirs is worth `scale`. */
  function Shifted(high: Parsed<nat>, v: nat, scale: nat): Parsed<nat> {
    match high case Bad => Bad case Ok(h, rest) => Ok(v + Worth(h, scale), rest)
  }

  lemma GroupsLast(low: byte, rest: Bytes, i: nat)
    requires i <= 9 && low < 128 && (i == 9 ==> low <= 1)
    ensures ReadGroups([low] + rest, i) == Ok(low, rest)
  {
    assert ([low] + rest)[1..] == rest;
  }

  lemma GroupsMore(low: nat, rest: Bytes, i: nat)
    requires i <= 9 && low < 128 && (i == 9 ==> low <= 1)
    ensures ReadGroups([low + 128] + rest, i) == Shifted(ReadGroups(rest, i + 1), low, 128)
  {
    assert ([low + 128] + rest)[1..] == rest;
  }

  lemma {:induction false} ReadGroupsOf(v: nat, i: nat, suffix: Bytes)
    requires i <= 9 && v < Room(i)
    ensures ReadGroups(Encode(v) + suffix, i) == Ok(v, suffix)
    decreases v
  {
    hide ReadGroups;
    if v < 128 {
      GroupsLast(v, suffix, i);
    } else {
      var low, high := v % 128, v / 128;
      assert v == low + 128 * high;
      assert Pow128(9 - i) == 128 * Pow128(8 - i);
      ReadGroupsOf(high, i + 1, suffix);
      GroupsMore(low, Encode(high) + suffix, i);
      assert Encode(v) + suffix == [low + 128] + (Encode(high) + suffix);
    }
  }

  lemma ReadVarintOf(v: u64, suffix: Bytes)
    ensures ReadVarint(Encode(v) + suffix) == Ok(v, suffix)
  {
    RoomWhole();
    ReadGroupsOf(v, 0, suffix);
  }

  lemma ShiftedFollowed(high: Parsed<nat>, v: nat, suffix: Bytes)
    ensures Shifted(high.Followed(suffix), v, 128) == Shifted(high, v, 128).Followed(suffix)
  {
  }

  /** Accepted groups: the first one ends the value, or the rest of them are accepted too. */
  lemma GroupsSplit(b: Bytes, i: nat)
    requires i <= 10 && ReadGroups(b, i).Ok?
    ensures i <= 9 && b != [] && b == [b[0]] + b[1..] && (i == 9 ==> b[0] % 128 <= 1)
    ensures b[0] >= 128 ==> ReadGroups(b[1..], i + 1).Ok?
  {
  }

  lemma {:induction false} ReadGroupsFollowed(b: Bytes, i: nat, suffix: Bytes)
    requires i <= 10 && ReadGroups(b, i).Ok?
    ensures ReadGroups(b + suffix, i) == ReadGroups(b, i).Followed(suffix)
    decreases 10 - i
  {
    hide ReadGroups, Shifted;
    GroupsSplit(b, i);
    var first, rest := b[0], b[1..];
    assert b + suffix == [first] + (rest + suffix);
    if first < 128 {
      GroupsLast(first, rest, i);
      GroupsLast(first, rest + suffix, i);
    } else {
      var low := first - 128;
      ReadGroupsFollowed(rest, i + 1, suffix);
      GroupsMore(low, rest, i);
      GroupsMore(low, rest + suffix, i);
      ShiftedFollowed(ReadGroups(rest, i + 1), low, suffix);
    }
  }

  lemma ReadVarintFollowed(b: Bytes, suffix: Bytes)
    requires ReadVarint(b).Ok?
    ensures ReadVarint(b + suffix) == ReadVarint(b).Followed(suffix)
  {
    ReadGroupsFollowed(b, 0, suffix);
  }

  lemma GroupShifts(high: Parsed<nat>, v: nat, low: nat, scale: nat)
    ensures Shifted(Shifted(high, low, 128), v, scale) == Shifted(high, v + Worth(low, scale), scale * 128)
  {
    if high.Ok? {
      assert (low + high.value * 128) * scale == low * scale + high.value * (scale * 128);
    }
  }

  /** The reader's loop invariant: `i` groups of `b` are in `v`, and the next is worth `scale`. */
  ghost predicate Reading(b: Bytes, i: nat, v: nat, scale: nat) {
    i <= |b| && i <= 10 && ReadGroups(b, 0) == Shifted(ReadGroups(b[i..], i), v, scale)
  }

  lemma ReadingStarts(b: Bytes)
    ensures Reading(b, 0, 0, 1)
  {
    assert b[0..] == b;
  }

  lemma ReadingGoesOn(b: Bytes, i: nat, v: nat, low: nat, scale: nat)
    requires Reading(b, i, v, scale) && i < |b| && b[i] == low + 128
    requires i < 9 || (i == 9 && low <= 1)
    ensures Reading(b, i + 1, v + Worth(low, scale), scale * 128)
  {
    var rest := b[i + 1..];
    assert b[i..] == [low + 128] + rest;
    hide ReadGroups, Shifted, Worth;
    GroupsMore(low, rest, i);
    GroupShifts(ReadGroups(rest, i + 1), v, low, scale);
  }

  lemma ReadingEnds(b: Bytes, i: nat, v: nat, low: nat, scale: nat)
    requires Reading(b, i, v, scale) && i < |b| && b[i] == low < 128
    requires i < 9 || (i == 9 && low <= 1)
    ensures ReadGroups(b, 0) == Ok(v + Worth(low, scale), b[i + 1..])
  {
    var rest := b[i + 1..];
    assert b[i..] == [low] + rest;
    hide ReadGroups, Worth, Suffix;
    GroupsLast(low, rest, i);
    ShiftedLast(low, rest, v, scale);
  }

  lemma ShiftedLast(low: nat, rest: Bytes, v: nat, scale: nat)
    ensures Shifted(Ok(low, rest), v, scale) == Ok(v + Worth(low, scale), rest)
  {
  }

  lemma ReadingRefuses(b: Bytes, i: nat, v: nat, scale: nat)
    requires Reading(b, i, v, scale) && (i == |b| || i == 10 || (i == 9 && b[i] % 128 > 1))
    ensures ReadGroups(b, 0) == Bad
  {
  }

  /** Eleven groups, or a tenth that overflows. */
  predicate Refused(b: Bytes, i: nat) {
    i >= |b| || i == 10 || (i == 9 && b[i] % 128 > 1)
  }

  /** The loop the storage crate runs, group by group with a growing shift. */
  method ReadChecked(b: Bytes) returns (r: Parsed<nat>)
    ensures r == ReadGroups(b, 0)
  {
    hide ReadGroups, Reading, Shifted, Worth, Suffix, Room, Pow128, Encode;
    var v: nat, scale: nat, i: nat := 0, 1, 0;
    ReadingStarts(b);
    while !Refused(b, i) && b[i] >= 128
      invariant i <= |b| && i <= 10
      invariant Reading(b, i, v, scale)
      decreases |b| - i
    {
      var low: nat := b[i] - 128;
      ReadingGoesOn(b, i, v, low, scale);
      v, scale, i := v + Worth(low, scale), scale * 128, i + 1;
    }
    if Refused(b, i) {
      ReadingRefuses(b, i, v, scale);
      r := Bad;
    } else {
      ReadingEnds(b, i, v, b[i], scale);
      r := Ok(v + Worth(b[i], scale), b[i + 1..]);
    }
  }

  // -- length-prefixed text ------------------------------------------------

  function EncodeText(t: Text): Bytes {
    Encode(|t|) + t
  }

  function ReadText(b: Bytes): (r: Parsed<Text>)
    ensures r.Ok? ==> |r.rest| < |b| && Suffix(r.rest, b)
  {
    var (n, body) :- ReadVarint(b);
    var (raw, rest) :- Take(body, n);
    if ValidUtf8(raw) then Ok(raw, rest) else Bad
  }

  lemma ReadTextOf(t: Text, suffix: Bytes)
    ensures ReadText(EncodeText(t) + suffix) == Ok(t, suffix)
  {
    assert EncodeText(t) + suffix == Encode(|t|) + (t + suffix);
    ReadVarintOf(|t|, t + suffix);
    TakeWhole(t, suffix);
  }

  lemma ReadTextFollowed(b: Bytes, suffix: Bytes)
    requires ReadText(b).Ok?
    ensures ReadText(b + suffix) == ReadText(b).Followed(suffix)
  {
    ReadVarintFollowed(b, suffix);
    var (n, body) := ReadVarint(b).Extract();
    TakeFollowed(body, n, suffix);
  }
}
