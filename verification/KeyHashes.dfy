/** Left folds, and why a fold of injective steps tells apart two inputs that differ in one place. */
module Folds {

  function Fold<S, B>(step: (S, B) -> S, start: S, input: seq<B>): S {
    if |input| == 0 then start else step(Fold(step, start, input[..|input| - 1]), input[|input| - 1])
  }

  ghost predicate InjectiveInState<S(!new), B(!new)>(step: (S, B) -> S) {
    forall s, t, b :: step(s, b) == step(t, b) ==> s == t
  }

  ghost predicate InjectiveInInput<S(!new), B(!new)>(step: (S, B) -> S) {
    forall s, b, c :: step(s, b) == step(s, c) ==> b == c
  }

  /** `a` and `b` have the same length and differ at index `i` and nowhere else. */
  ghost predicate DifferOnlyAt<B>(a: seq<B>, b: seq<B>, i: nat) {
    && |a| == |b|
    && i < |a|
    && a[i] != b[i]
    && forall j | 0 <= j < |a| && j != i :: a[j] == b[j]
  }

  lemma {:induction false} FoldKeepsStatesApart<S(!new), B(!new)>(step: (S, B) -> S, s: S, t: S, input: seq<B>)
    requires InjectiveInState(step) && s != t
    ensures Fold(step, s, input) != Fold(step, t, input)
  {
    if |input| > 0 {
      FoldKeepsStatesApart(step, s, t, input[..|input| - 1]);
    }
  }

  lemma {:induction false} FoldSeparates<S(!new), B(!new)>(step: (S, B) -> S, s: S, a: seq<B>, b: seq<B>, i: nat)
    requires InjectiveInState(step) && InjectiveInInput(step)
    requires DifferOnlyAt(a, b, i)
    ensures Fold(step, s, a) != Fold(step, s, b)
  {
    var n := |a| - 1;
    if i == n {
      assert a[..n] == b[..n];
    } else {
      FoldSeparates(step, s, a[..n], b[..n], i);
    }
  }

  lemma {:induction false} FoldSimulates<S, T, B>(big: (S, B) -> S, small: (T, B) -> T, view: S -> T,
                                                   s: S, input: seq<B>)
    requires forall x, b :: view(big(x, b)) == small(view(x), b)
    ensures view(Fold(big, s, input)) == Fold(small, view(s), input)
  {
    if |input| > 0 {
      FoldSimulates(big, small, view, s, input[..|input| - 1]);
    }
  }

  lemma FoldSnoc<S, B>(step: (S, B) -> S, s: S, input: seq<B>, n: nat)
    requires n < |input|
    ensures Fold(step, s, input[..n + 1]) == step(Fold(step, s, input[..n]), input[n])
  {
    assert input[..n + 1][..n] == input[..n];
  }
}

/** The three key hashes of the consistent-hash ring: FNV-1, FNV-1a and MurmurHash3.
    A key is a sequence of bytes; `char` is signed, as it is on the targets of the
    original, so FNV sign-extends each byte it widens. A `uint32_t` load of four key
    bytes is little-endian. */
module KeyHashes {
  import opened Words
  import opened Folds

  type Key = seq<byte>

  const FNV_64_INIT: uint64 := 0x100000001b3
  const FNV_64_PRIME: uint64 := 0xcbf29ce484222325

  function Low32(x: uint64): uint32 {
    x % TWO_32
  }

  // ----- FNV -----

  function SignExtend64(b: byte): uint64 {
    if b < 0x80 then b else b + 0xFFFF_FFFF_FFFF_FF00
  }

  function SignExtend32(b: byte): uint32 {
    if b < 0x80 then b else b + 0xFFFF_FF00
  }

  function Xor64(x: uint64, y: uint64): uint64 {
    Pow2Values();
    XorBound(x, y, 64);
    Xor(x, y)
  }

  function Xor32(x: uint32, y: uint32): uint32 {
    Pow2Values();
    XorBound(x, y, 32);
    Xor(x, y)
  }

  function Times64(x: uint64, y: uint64): uint64 {
    (x * y) % TWO_64
  }

  function Times32(x: uint32, y: uint32): uint32 {
    (x * y) % TWO_32
  }

  function Fnv1Wide(hash: uint64, b: byte): uint64 {
    Xor64(Times64(hash, FNV_64_PRIME), SignExtend64(b))
  }

  function Fnv1Narrow(hash: uint32, b: byte): uint32 {
    Xor32(Times32(hash, Low32(FNV_64_PRIME)), SignExtend32(b))
  }

  function Fnv1aWide(hash: uint64, b: byte): uint64 {
    Times64(Xor64(hash, SignExtend64(b)), FNV_64_PRIME)
  }

  function Fnv1aNarrow(hash: uint32, b: byte): uint32 {
    Times32(Xor32(hash, SignExtend32(b)), Low32(FNV_64_PRIME))
  }

  function Fnv1(key: Key): uint32 {
    Low32(Fold(Fnv1Wide, FNV_64_INIT, key))
  }

  function Fnv1a(key: Key): uint32 {
    Fold(Fnv1aNarrow, Low32(FNV_64_INIT), key)
  }

  method HashFnv1(key: Key) returns (result: uint32)
    ensures result == Fnv1(key)
  {
    var hash := FNV_64_INIT;
    for x := 0 to |key|
      invariant hash == Fold(Fnv1Wide, FNV_64_INIT, key[..x])
    {
      FoldSnoc(Fnv1Wide, FNV_64_INIT, key, x);
      hash := Times64(hash, FNV_64_PRIME);
      hash := Xor64(hash, SignExtend64(key[x]));
    }
    assert key[..|key|] == key;
    result := Low32(hash);
  }

  method HashFnv1a(key: Key) returns (hash: uint32)
    ensures hash == Fnv1a(key)
  {
    hash := Low32(FNV_64_INIT);
    for x := 0 to |key|
      invariant hash == Fold(Fnv1aNarrow, Low32(FNV_64_INIT), key[..x])
    {
      FoldSnoc(Fnv1aNarrow, Low32(FNV_64_INIT), key, x);
      var val := SignExtend32(key[x]);
      hash := Xor32(hash, val);
      hash := Times32(hash, Low32(FNV_64_PRIME));
    }
    assert key[..|key|] == key;
  }

  lemma Low32OfTimes(x: uint64, y: uint64)
    ensures Low32(Times64(x, y)) == Times32(Low32(x), Low32(y))
  {
    var p := x * y;
    assert p % TWO_64 % TWO_32 == p % TWO_32 by {
      assert p % TWO_64 == p + (-(p / TWO_64) * TWO_32) * TWO_32;
      ModOfMultiple(p, -(p / TWO_64) * TWO_32, TWO_32);
    }
    var a, b, c, d := x % TWO_32, x / TWO_32, y % TWO_32, y / TWO_32;
    calc {
      p;
      (b * TWO_32 + a) * (d * TWO_32 + c);
      a * c + (b * (d * TWO_32 + c) + a * d) * TWO_32;
    }
    ModOfMultiple(a * c, b * (d * TWO_32 + c) + a * d, TWO_32);
  }

  lemma Low32OfXor(x: uint64, y: uint64)
    ensures Low32(Xor64(x, y)) == Xor32(Low32(x), Low32(y))
  {
    Pow2Values();
    XorLowBits(x, y, 32);
  }

  lemma NarrowSteps(hash: uint64, b: byte)
    ensures Low32(Fnv1Wide(hash, b)) == Fnv1Narrow(Low32(hash), b)
    ensures Low32(Fnv1aWide(hash, b)) == Fnv1aNarrow(Low32(hash), b)
  {
    assert Low32(SignExtend64(b)) == SignExtend32(b);
    hide Low32, Xor32, Xor64, Times32, Times64, SignExtend32, SignExtend64;
    Low32OfXor(Times64(hash, FNV_64_PRIME), SignExtend64(b));
    Low32OfTimes(hash, FNV_64_PRIME);
    Low32OfXor(hash, SignExtend64(b));
    Low32OfTimes(Xor64(hash, SignExtend64(b)), FNV_64_PRIME);
  }

  /** The 32-bit loop of `hash_fnv1a_64` returns the low half of the 64-bit loop it is
      named after; FNV-1, run in 64 bits, needs only 32 bits of state for its result. */
  lemma NarrowRefinesWide(key: Key)
    ensures Fnv1a(key) == Low32(Fold(Fnv1aWide, FNV_64_INIT, key))
    ensures Fnv1(key) == Fold(Fnv1Narrow, Low32(FNV_64_INIT), key)
  {
    forall h, b
      ensures Low32(Fnv1Wide(h, b)) == Fnv1Narrow(Low32(h), b)
      ensures Low32(Fnv1aWide(h, b)) == Fnv1aNarrow(Low32(h), b)
    {
      NarrowSteps(h, b);
    }
    hide Low32, Fnv1Wide, Fnv1Narrow, Fnv1aWide, Fnv1aNarrow;
    FoldSimulates(Fnv1aWide, Fnv1aNarrow, Low32, FNV_64_INIT, key);
    FoldSimulates(Fnv1Wide, Fnv1Narrow, Low32, FNV_64_INIT, key);
  }

  // ----- MurmurHash3 -----

  const C1: uint32 := 0xcc9e2d51
  const C2: uint32 := 0x1b873593
  const M: uint32 := 5
  const N: uint32 := 0xe6546b64
  const F1: uint32 := 0x85ebca6b
  const F2: uint32 := 0xc2b2ae35

  /** ROT32: the two shifted parts share no bit, so joining them is addition. */
  function Rot15(x: uint32): uint32 {
    RotBound(x, 0x8000, 0x2_0000);
    (x * 0x8000) % TWO_32 + x / 0x2_0000
  }

  function Rot13(x: uint32): uint32 {
    RotBound(x, 0x2000, 0x8_0000);
    (x * 0x2000) % TWO_32 + x / 0x8_0000
  }

  function Scramble(k: uint32): uint32 {
    Times32(Rot15(Times32(k, C1)), C2)
  }

  function MixBlock(hash: uint32, k: uint32): uint32 {
    (Times32(Rot13(Xor32(hash, Scramble(k))), M) + N) % TWO_32
  }

  function XorShift(hash: uint32, k: nat): uint32 {
    ShrDivides(hash, k);
    ShrBound(hash, k);
    Xor32(hash, Shr(hash, k))
  }

  lemma {:induction false} ShrBound(a: nat, k: nat)
    ensures Shr(a, k) <= a
  {
    if k > 0 {
      ShrBound(a / 2, k - 1);
    }
  }

  function Finish(hash: uint32): uint32 {
    XorShift(Times32(XorShift(Times32(XorShift(hash, 16), F1), 13), F2), 16)
  }

  /** The aligned 32-bit block at byte offset `at`. */
  function Block(key: Key, at: nat): uint32
    requires at + 4 <= |key|
  {
    key[at] as int + 0x100 * key[at + 1] as int + 0x1_0000 * key[at + 2] as int + 0x100_0000 * key[at + 3] as int
  }

  function Blocks(key: Key, n: nat): seq<uint32>
    requires 4 * n <= |key|
  {
    seq(n, i requires 0 <= i < n => Block(key, 4 * i))
  }

  /** The up to three bytes after the last block, gathered by the fall-through switch. */
  function Tail(key: Key, at: nat, size: nat): uint32
    requires size <= 3 && at + size <= |key|
  {
    var k := if size == 3 then Xor32(0, 0x1_0000 * (key[at + 2] as int)) else 0;
    var k := if size >= 2 then Xor32(k, 0x100 * (key[at + 1] as int)) else k;
    if size >= 1 then Xor32(k, key[at]) else k
  }

  function MixTail(hash: uint32, key: Key, at: nat, size: nat): uint32
    requires size <= 3 && at + size <= |key|
  {
    if size == 0 then hash else Xor32(hash, Scramble(Tail(key, at, size)))
  }

  function Murmur(key: Key, len: uint32, seed: uint32): uint32
    requires len <= |key|
  {
    var n := len / 4;
    Finish(Xor32(MixTail(Fold(MixBlock, seed, Blocks(key, n)), key, 4 * n, len % 4), len))
  }

  method Murmur3(key: Key, len: uint32, seed: uint32) returns (hash: uint32)
    requires len <= |key|
    ensures hash == Murmur(key, len, seed)
  {
    hide Times32, Rot13, Rot15, Xor32, XorShift, Block;
    hash := seed;
    var nblocks := len / 4;
    ghost var blocks := Blocks(key, nblocks);
    for i := 0 to nblocks
      invariant hash == Fold(MixBlock, seed, blocks[..i])
    {
      FoldSnoc(MixBlock, seed, blocks, i);
      var k := Block(key, 4 * i);
      k := Times32(k, C1);
      k := Rot15(k);
      k := Times32(k, C2);
      hash := Xor32(hash, k);
      hash := (Times32(Rot13(hash), M) + N) % TWO_32;
    }
    assert blocks[..nblocks] == blocks;
    var tail := 4 * nblocks;
    var k1: uint32 := 0;
    if len % 4 == 3 {
      k1 := Xor32(k1, 0x1_0000 * (key[tail + 2] as int));
    }
    if len % 4 >= 2 {
      k1 := Xor32(k1, 0x100 * (key[tail + 1] as int));
    }
    if len % 4 >= 1 {
      k1 := Xor32(k1, key[tail]);
      k1 := Times32(k1, C1);
      k1 := Rot15(k1);
      k1 := Times32(k1, C2);
      hash := Xor32(hash, k1);
    }
    hash := Xor32(hash, len);
    hash := XorShift(hash, 16);
    hash := Times32(hash, F1);
    hash := XorShift(hash, 13);
    hash := Times32(hash, F2);
    hash := XorShift(hash, 16);
  }

  // Each ingredient loses nothing.

  lemma TimesInjective(x: uint32, y: uint32, c: uint32, inverse: uint32, q: nat)
    requires c * inverse == 1 + q * TWO_32
    requires Times32(x, c) == Times32(y, c)
    ensures x == y
  {
    OddMultiplierUndone(x, c, inverse, q, TWO_32);
    OddMultiplierUndone(y, c, inverse, q, TWO_32);
  }

  lemma XorInjective(x: uint32, y: uint32, z: uint32)
    ensures Xor32(x, z) == Xor32(y, z) ==> x == y
    ensures Xor32(z, x) == Xor32(z, y) ==> x == y
  {
    XorUndo(x, z);
    XorUndo(y, z);
    XorUndo(z, x);
    XorUndo(z, y);
  }

  lemma Rot15Injective(x: uint32, y: uint32)
    requires Rot15(x) == Rot15(y)
    ensures x == y
  {
    RotSplit(x, 0x8000, 0x2_0000);
    RotSplit(y, 0x8000, 0x2_0000);
  }

  lemma Rot13Injective(x: uint32, y: uint32)
    requires Rot13(x) == Rot13(y)
    ensures x == y
  {
    RotSplit(x, 0x2000, 0x8_0000);
    RotSplit(y, 0x2000, 0x8_0000);
  }

  /** Both halves of a rotated word can be read back. */
  lemma RotSplit(x: uint32, up: nat, down: nat)
    requires up > 0 && down > 0 && up * down == TWO_32
    ensures var r := (x * up) % TWO_32 + x / down;
            r % up == x / down && r / up == x % down
  {
    var hi, lo := x / down, x % down;
    assert x == hi * down + lo;
    HighBelow(hi, up, down, lo);
    Regroup(hi, down, lo, up);
    LowBelow(lo, down, up);
    DivModUnique(x * up, TWO_32, hi, lo * up);
    DivModUnique(lo * up + hi, up, lo, hi);
  }

  lemma HighBelow(hi: int, up: int, down: int, lo: int)
    requires hi * down + lo < up * down && lo >= 0 && down > 0
    ensures hi < up
  {
    if hi >= up {
      MulMonotone(up, hi, down);
    }
  }

  lemma LowBelow(lo: int, down: int, up: int)
    requires lo < down && up > 0
    ensures lo * up < up * down
  {
    MulMonotone(lo + 1, down, up);
  }

  lemma RotBound(x: uint32, up: nat, down: nat)
    requires up > 0 && down > 0 && up * down == TWO_32
    ensures (x * up) % TWO_32 + x / down < TWO_32
  {
    RotSplit(x, up, down);
    BelowProduct((x * up) % TWO_32 + x / down, up, down);
  }

  lemma BelowProduct(r: nat, up: nat, down: nat)
    requires up > 0 && r / up < down
    ensures r < up * down
  {
    MulMonotone(r / up + 1, down, up);
    assert r < (r / up + 1) * up;
  }

  lemma Regroup(a: int, b: int, c: int, d: int)
    ensures (a * b + c) * d == a * (d * b) + c * d
  {
  }

  lemma MulMonotone(a: int, b: int, c: int)
    requires a <= b && c >= 0
    ensures a * c <= b * c
  {
  }

  lemma XorShiftInjective(x: uint32, y: uint32, k: nat)
    requires 11 <= k <= 32
    requires XorShift(x, k) == XorShift(y, k)
    ensures x == y
  {
    ShiftedOut(x, k);
    ShiftedOut(y, k);
    XorShiftHigh(x, k);
    XorShiftHigh(y, k);
    XorUndo(x, Shr(x, k));
    XorUndo(y, Shr(y, k));
    XorUndo(Shr(x, k), Shr(x, 2 * k));
    XorUndo(Shr(y, k), Shr(y, 2 * k));
  }

  /** Three shifts of at least 11 leave nothing of a 32-bit word. */
  lemma ShiftedOut(x: uint32, k: nat)
    requires 11 <= k
    ensures Shr(x, 3 * k) == 0
  {
    Pow2Values();
    ShrVanishes(x, 32);
    ShrAdds(x, 32, 3 * k - 32);
    ShrBound(0, 3 * k - 32);
  }

  /** The upper groups of an xor-shifted word are those of the word, xor-shifted. */
  lemma XorShiftHigh(x: uint32, k: nat)
    requires Shr(x, 3 * k) == 0
    ensures Shr(XorShift(x, k), k) == Xor(Shr(x, k), Shr(x, 2 * k))
    ensures Shr(XorShift(x, k), 2 * k) == Shr(x, 2 * k)
  {
    XorShr(x, Shr(x, k), k);
    ShrAdds(x, k, k);
    XorShr(x, Shr(x, k), 2 * k);
    ShrAdds(x, k, 2 * k);
    XorZero(Shr(x, 2 * k));
  }

  lemma ScrambleInjective(x: uint32, y: uint32)
    requires Scramble(x) == Scramble(y)
    ensures x == y
  {
    TimesInjective(Rot15(Times32(x, C1)), Rot15(Times32(y, C1)), C2, 0x56ed309b, (C2 * 0x56ed309b - 1) / TWO_32);
    Rot15Injective(Times32(x, C1), Times32(y, C1));
    TimesInjective(x, y, C1, 0xdee13bb1, (C1 * 0xdee13bb1 - 1) / TWO_32);
  }

  lemma MixBlockInjective(g: uint32, h: uint32, j: uint32, k: uint32)
    requires MixBlock(g, j) == MixBlock(h, k)
    ensures g == h ==> j == k
    ensures j == k ==> g == h
  {
    hide Times32, Rot13, Xor32, Scramble;
    var x, y := Xor32(g, Scramble(j)), Xor32(h, Scramble(k));
    TimesInjective(Rot13(x), Rot13(y), M, 0xcccccccd, (M * 0xcccccccd - 1) / TWO_32);
    Rot13Injective(x, y);
    if g == h {
      XorInjective(Scramble(j), Scramble(k), g);
      ScrambleInjective(j, k);
    }
    XorInjective(g, h, Scramble(j));
  }

  lemma FinishInjective(x: uint32, y: uint32)
    requires Finish(x) == Finish(y)
    ensures x == y
  {
    hide Times32, XorShift;
    var x1, y1 := XorShift(x, 16), XorShift(y, 16);
    var x2, y2 := XorShift(Times32(x1, F1), 13), XorShift(Times32(y1, F1), 13);
    XorShiftInjective(Times32(x2, F2), Times32(y2, F2), 16);
    TimesInjective(x2, y2, F2, 0x7ed1b41d, (F2 * 0x7ed1b41d - 1) / TWO_32);
    XorShiftInjective(Times32(x1, F1), Times32(y1, F1), 13);
    TimesInjective(x1, y1, F1, 0xa5cb9243, (F1 * 0xa5cb9243 - 1) / TWO_32);
    XorShiftInjective(x, y, 16);
  }

  lemma TailIsSum(key: Key, at: nat, size: nat)
    requires size <= 3 && at + size <= |key|
    ensures Tail(key, at, size) == (if size >= 1 then key[at] as int else 0)
                                   + (if size >= 2 then 0x100 * key[at + 1] as int else 0)
                                   + (if size == 3 then 0x1_0000 * key[at + 2] as int else 0)
  {
    Pow2Values();
    hide Xor, Pow2;
    var high := if size == 3 then key[at + 2] as int else 0;
    var middle := if size >= 2 then key[at + 1] as int else 0;
    XorZero(0x1_0000 * high);
    XorDisjoint(high, 0x100 * middle, 16);
    XorDisjoint(0x100 * high + middle, if size >= 1 then key[at] else 0, 8);
  }

  /** `a` and `b` have the same length, are not equal, and agree outside [from, to). */
  ghost predicate DifferOnlyWithin(a: Key, b: Key, from: nat, to: nat) {
    && |a| == |b|
    && a != b
    && forall j | 0 <= j < |a| && !(from <= j < to) :: a[j] == b[j]
  }

  lemma BytesOfSum(x: byte, y: byte, z: byte, x': byte, y': byte, z': byte)
    requires x as int + 0x100 * y as int + 0x1_0000 * z as int
             == x' as int + 0x100 * y' as int + 0x1_0000 * z' as int
    ensures x == x' && y == y' && z == z'
  {
  }

  lemma TailInjective(a: Key, b: Key, at: nat, size: nat)
    requires size <= 3 && |a| == |b| == at + size
    requires a[..at] == b[..at] && Tail(a, at, size) == Tail(b, at, size)
    ensures a == b
  {
    TailIsSum(a, at, size);
    TailIsSum(b, at, size);
    hide Tail;
    var zero: byte := 0;
    BytesOfSum(if size >= 1 then a[at] else zero, if size >= 2 then a[at + 1] else zero,
               if size == 3 then a[at + 2] else zero,
               if size >= 1 then b[at] else zero, if size >= 2 then b[at + 1] else zero,
               if size == 3 then b[at + 2] else zero);
    forall j | 0 <= j < |a| ensures a[j] == b[j] {
      assert j < at ==> a[..at][j] == b[..at][j];
      assert at <= j ==> j == at || j == at + 1 || j == at + 2;
    }
  }

  /** MurmurHash3 never hashes alike two keys of equal length that differ only inside
      one aligned four-byte unit; the last unit may be the shorter tail. */
  lemma MurmurSeparates(a: Key, b: Key, unit: nat, seed: uint32)
    requires |a| < TWO_32
    requires DifferOnlyWithin(a, b, 4 * unit, 4 * unit + 4)
    ensures Murmur(a, |a|, seed) != Murmur(b, |b|, seed)
  {
    var n, size := |a| / 4, |a| % 4;
    assert unit < n ==> Tail(a, 4 * n, size) == Tail(b, 4 * n, size);
    hide MixBlock, Scramble, Tail, Xor32, Finish;
    var g, h := Fold(MixBlock, seed, Blocks(a, n)), Fold(MixBlock, seed, Blocks(b, n));
    if unit < n {
      BlocksDiffer(a, b, unit, n);
      MurmurFoldSeparates(seed, Blocks(a, n), Blocks(b, n), unit);
      XorInjective(g, h, Scramble(Tail(a, 4 * n, size)));
    } else {
      assert a[..4 * n] == b[..4 * n];
      assert Blocks(a, n) == Blocks(b, n);
      if MixTail(g, a, 4 * n, size) == MixTail(g, b, 4 * n, size) {
        if size > 0 {
          XorInjective(Scramble(Tail(a, 4 * n, size)), Scramble(Tail(b, 4 * n, size)), g);
          ScrambleInjective(Tail(a, 4 * n, size), Tail(b, 4 * n, size));
          TailInjective(a, b, 4 * n, size);
        }
        assert false;
      }
    }
    var x, y := MixTail(g, a, 4 * n, size), MixTail(h, b, 4 * n, size);
    XorInjective(x, y, |a|);
    if Finish(Xor32(x, |a|)) == Finish(Xor32(y, |a|)) {
      FinishInjective(Xor32(x, |a|), Xor32(y, |a|));
      assert false;
    }
  }

  lemma BlocksDiffer(a: Key, b: Key, unit: nat, n: nat)
    requires unit < n && 4 * n <= |a|
    requires DifferOnlyWithin(a, b, 4 * unit, 4 * unit + 4)
    ensures DifferOnlyAt(Blocks(a, n), Blocks(b, n), unit)
  {
    var j :| 0 <= j < |a| && a[j] != b[j];
    assert Block(a, 4 * unit) != Block(b, 4 * unit);
  }

  lemma MurmurFoldSeparates(seed: uint32, a: seq<uint32>, b: seq<uint32>, i: nat)
    requires DifferOnlyAt(a, b, i)
    ensures Fold(MixBlock, seed, a) != Fold(MixBlock, seed, b)
  {
    forall g, h, k | MixBlock(g, k) == MixBlock(h, k) ensures g == h {
      MixBlockInjective(g, h, k, k);
    }
    forall h, j, k | MixBlock(h, j) == MixBlock(h, k) ensures j == k {
      MixBlockInjective(h, h, j, k);
    }
    hide MixBlock;
    FoldSeparates(MixBlock, seed, a, b, i);
  }

  const FNV_INVERSE: uint32 := 0x1501_40ad

  lemma FnvStepsInjective(g: uint32, h: uint32, b: byte, c: byte)
    ensures Fnv1Narrow(g, b) == Fnv1Narrow(h, c) ==> (g == h <==> b == c)
    ensures Fnv1aNarrow(g, b) == Fnv1aNarrow(h, c) ==> (g == h <==> b == c)
  {
    var prime, q := Low32(FNV_64_PRIME), (Low32(FNV_64_PRIME) * FNV_INVERSE - 1) / TWO_32;
    assert SignExtend32(b) == SignExtend32(c) <==> b == c;
    assert prime * FNV_INVERSE == 1 + q * TWO_32;
    hide Times32, Xor32, SignExtend32, Low32;
    var x, y := SignExtend32(b), SignExtend32(c);
    XorInjective(g, h, x);
    XorInjective(x, y, g);
    XorInjective(Times32(g, prime), Times32(h, prime), x);
    XorInjective(x, y, Times32(g, prime));
    if Times32(g, prime) == Times32(h, prime) {
      TimesInjective(g, h, prime, FNV_INVERSE, q);
    }
    if Fnv1aNarrow(g, b) == Fnv1aNarrow(h, c) {
      TimesInjective(Xor32(g, x), Xor32(h, y), prime, FNV_INVERSE, q);
    }
  }

  /** Neither FNV loop ever hashes alike two keys that differ in a single byte. */
  lemma FnvSeparates(a: Key, b: Key, i: nat)
    requires DifferOnlyAt(a, b, i)
    ensures Fnv1(a) != Fnv1(b) && Fnv1a(a) != Fnv1a(b)
  {
    NarrowRefinesWide(a);
    NarrowRefinesWide(b);
    forall g, h, x | Fnv1Narrow(g, x) == Fnv1Narrow(h, x) ensures g == h {
      FnvStepsInjective(g, h, x, x);
    }
    forall h, x, y | Fnv1Narrow(h, x) == Fnv1Narrow(h, y) ensures x == y {
      FnvStepsInjective(h, h, x, y);
    }
    forall g, h, x | Fnv1aNarrow(g, x) == Fnv1aNarrow(h, x) ensures g == h {
      FnvStepsInjective(g, h, x, x);
    }
    forall h, x, y | Fnv1aNarrow(h, x) == Fnv1aNarrow(h, y) ensures x == y {
      FnvStepsInjective(h, h, x, y);
    }
    hide Fnv1Narrow, Fnv1aNarrow, Low32;
    FoldSeparates(Fnv1Narrow, Low32(FNV_64_INIT), a, b, i);
    FoldSeparates(Fnv1aNarrow, Low32(FNV_64_INIT), a, b, i);
  }

  // ----- the hash a key is routed by -----

  const HASH_FNV1A_64 := 0
  const HASH_FNV1_64 := 1
  const HASH_MURMUR3_32 := 2
  const MURMUR_SEED: uint32 := 0x1b3

  /** `std::string::size()` is narrowed to the 32-bit length that `murmur3_32` takes. */
  function KeyHash(algorithm: int, key: Key): uint32 {
    if algorithm == HASH_FNV1_64 then Fnv1(key)
    else if algorithm == HASH_MURMUR3_32 then Murmur(key, |key| % TWO_32, MURMUR_SEED)
    else Fnv1a(key)
  }

  method HashOf(algorithm: int, key: Key) returns (hash: uint32)
    ensures hash == KeyHash(algorithm, key)
  {
    if algorithm == HASH_FNV1_64 {
      hash := HashFnv1(key);
    } else if algorithm == HASH_MURMUR3_32 {
      hash := Murmur3(key, |key| % TWO_32, MURMUR_SEED);
    } else {
      hash := HashFnv1a(key);
    }
  }

  lemma MurmurReadsPrefix(key: Key, len: uint32, seed: uint32)
    requires len <= |key|
    ensures Murmur(key, len, seed) == Murmur(key[..len], len, seed)
  {
    assert Blocks(key, len / 4) == Blocks(key[..len], len / 4);
  }

  /** Changing one byte of a key changes the hash it is routed by, except that MurmurHash3
      does not see a byte past the key's length taken modulo 2^32. */
  lemma OneByteChangesHash(algorithm: int, a: Key, b: Key, i: nat)
    requires DifferOnlyAt(a, b, i)
    ensures KeyHash(algorithm, a) != KeyHash(algorithm, b)
            <==> (algorithm == HASH_MURMUR3_32 ==> i < |a| % TWO_32)
  {
    hide Murmur, Fnv1, Fnv1a;
    if algorithm == HASH_MURMUR3_32 {
      var len := |a| % TWO_32;
      MurmurReadsPrefix(a, len, MURMUR_SEED);
      MurmurReadsPrefix(b, len, MURMUR_SEED);
      if i < len {
        assert a[..len][i] != b[..len][i];
        MurmurSeparates(a[..len], b[..len], i / 4, MURMUR_SEED);
      } else {
        assert a[..len] == b[..len];
      }
    } else {
      FnvSeparates(a, b, i);
    }
  }
}
