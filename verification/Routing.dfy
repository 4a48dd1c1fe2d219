/** Shard routing: rounding the shard count and Fibonacci hashing, in 64-bit arithmetic. */
module Routing {
  import opened Ids

  /** 2^64 divided by the golden ratio; odd. */
  const FIB_HASH: int := 0x9E37_79B9_7F4A_7C15

  /** The multiplicative inverse of `FIB_HASH` modulo 2^64. */
  const FIB_INVERSE: int := 0xF1DE_83E1_9937_733D

  /** `log2` of the shard count; the count itself must fit a word. */
  type Bits = b: nat | b <= 63

  function Pow2(n: nat): (p: nat)
    ensures p >= 1
  {
    if n == 0 then 1 else 2 * Pow2(n - 1)
  }

  lemma {:induction false} Pow2Adds(a: nat, b: nat)
    ensures Pow2(a + b) == Pow2(a) * Pow2(b)
  {
    if a > 0 {
      Pow2Adds(a - 1, b);
      assert a - 1 + b == a + b - 1;
    }
  }

  lemma Pow2Grows(a: nat, b: nat)
    requires a < b
    ensures 2 * Pow2(a) <= Pow2(b)
  {
  }

  lemma Pow2Is64()
    ensures Pow2(64) == TWO_64 && Pow2(63) == 0x8000_0000_0000_0000
  {
    assert Pow2(4) == 16;
    Pow2Doubled(4, 16);
    Pow2Doubled(8, 0x100);
    Pow2Doubled(16, 0x1_0000);
    Pow2Doubled(32, 0x1_0000_0000);
  }

  lemma Pow2Doubled(n: nat, p: nat)
    requires Pow2(n) == p
    ensures Pow2(2 * n) == p * p && (n > 0 ==> 2 * Pow2(2 * n - 1) == p * p)
  {
    Pow2Adds(n, n);
  }

  /** `max(1).next_power_of_two().trailing_zeros()`: the shard bits for a requested count. */
  function ShardBits(requested: nat): (bits: nat)
    ensures Pow2(bits) >= requested
    ensures bits > 0 ==> Pow2(bits - 1) < requested
  {
    if requested <= 1 then 0 else BitsFrom(requested, 1)
  }

  function BitsFrom(requested: nat, b: nat): (bits: nat)
    requires b > 0 && Pow2(b - 1) < requested
    ensures Pow2(bits) >= requested && bits > 0 && Pow2(bits - 1) < requested
    decreases requested - Pow2(b - 1)
  {
    if Pow2(b) >= requested then b else BitsFrom(requested, b + 1)
  }

  /** The shard count is the least power of two that covers the request. */
  lemma RoundingIsLeast(requested: nat, n: nat)
    requires Pow2(n) >= requested
    ensures Pow2(ShardBits(requested)) <= Pow2(n)
  {
    var bits := ShardBits(requested);
    if n < bits {
      if n < bits - 1 {
        Pow2Grows(n, bits - 1);
      }
      assert false;
    }
    if bits < n {
      Pow2Grows(bits, n);
    }
  }

  /** Requests up to 2^63 never overflow the rounding. */
  lemma RoundingFits(requested: nat)
    requires requested <= 0x8000_0000_0000_0000
    ensures ShardBits(requested) <= 63
  {
    Pow2Is64();
    var bits := ShardBits(requested);
    if bits > 63 {
      if bits > 64 {
        Pow2Grows(63, bits - 1);
      }
      assert false;
    }
  }

  /** `wrapping_mul`. */
  function Hash(r: ResourceId): U64 {
    (r * FIB_HASH) % TWO_64
  }

  /** The top `bits` bits of the hash; a single shard takes everything. */
  function ShardIndex(bits: Bits, r: ResourceId): nat
  {
    if bits == 0 then 0 else ShiftRight(Hash(r), 64 - bits)
  }

  function ShiftRight(h: nat, n: nat): nat {
    Quotient(h, Pow2(n))
  }

  function Quotient(x: nat, w: nat): (q: nat)
    requires w > 0
  {
    x / w
  }

  lemma ShardInBounds(bits: Bits, r: ResourceId)
    ensures ShardIndex(bits, r) < Pow2(bits)
    ensures bits > 0 ==> 0 < 64 - bits < 64
  {
    if bits > 0 {
      Pow2Is64();
      Pow2Adds(bits, 64 - bits);
      DivBelow(Hash(r), Pow2(bits), Pow2(64 - bits));
    }
  }

  lemma DivBelow(x: nat, a: nat, w: nat)
    requires w > 0 && x < a * w
    ensures x / w < a
  {
  }

  lemma MulMonotone(a: int, b: int, w: nat)
    requires a <= b
    ensures a * w <= b * w
  {
  }

  // ---- every shard owns equally many ids -----------------------------------------------

  lemma ModOf(x: int, m: int, r: int, z: int)
    requires m > 0 && 0 <= r < m && x == r + m * z
    ensures x % m == r
  {
    var q := x / m;
    assert x == m * q + x % m;
    assert m * (q - z) == r - x % m;
    if q - z >= 1 {
      MulMonotone(1, q - z, m);
    } else if q - z <= -1 {
      MulMonotone(q - z, -1, m);
    }
  }

  /** Multiplying by `a` and then by its inverse modulo `m` gives the word back. */
  lemma MultiplyBack(r: int, a: int, b: int, m: int, c: int)
    requires m > 0 && 0 <= r < m && a * b == 1 + c * m
    ensures ((r * a) % m * b) % m == r
  {
    var x := (r * a) % m;
    var q := (r * a) / m;
    assert r * a == m * q + x;
    var z := r * c - q * b;
    assert x * b == r + m * z by {
      assert x * b == (r * a - m * q) * b == r * a * b - m * q * b;
      assert r * a * b == r * (a * b) == r * (1 + c * m) == r + r * (c * m);
      assert m * z == m * (r * c) - m * (q * b);
      assert r * (c * m) == m * (r * c);
      assert m * q * b == m * (q * b);
    }
    ModOf(x * b, m, r, z);
  }

  function Unhash(h: U64): ResourceId {
    (h * FIB_INVERSE) % TWO_64
  }

  /** The odd multiplier makes the hash a bijection on words. */
  lemma HashIsBijection(r: U64)
    ensures Unhash(Hash(r)) == r && Hash(Unhash(r)) == r
  {
    var c := (FIB_HASH * FIB_INVERSE - 1) / TWO_64;
    assert FIB_HASH * FIB_INVERSE == 1 + c * TWO_64;
    MultiplyBack(r, FIB_HASH, FIB_INVERSE, TWO_64, c);
    MultiplyBack(r, FIB_INVERSE, FIB_HASH, TWO_64, c);
  }

  ghost function Interval(lo: int, hi: int): (s: set<int>)
    requires lo <= hi
    ensures forall x :: x in s <==> lo <= x < hi
    ensures |s| == hi - lo
    decreases hi - lo
  {
    if lo == hi then {} else Interval(lo, hi - 1) + {hi - 1}
  }

  lemma {:induction false} ImageCard<T(!new)>(a: set<T>, image: set<T>, f: T -> T)
    requires forall x, y | x in a && y in a && f(x) == f(y) :: x == y
    requires forall y :: y in image <==> exists x :: x in a && f(x) == y
    ensures |image| == |a|
  {
    if a != {} {
      var x :| x in a;
      assert f(x) in image;
      ImageCard(a - {x}, image - {f(x)}, f);
    } else {
      assert image == {};
    }
  }

  ghost function OwnedBy(bits: Bits, k: nat): set<int>
  {
    set r: int | 0 <= r < TWO_64 && ShardIndex(bits, r) == k
  }

  lemma SliceOfHash(h: int, k: nat, w: nat)
    requires w > 0 && h >= 0
    ensures h / w == k <==> k * w <= h < (k + 1) * w
  {
    var q := h / w;
    assert q * w <= h < q * w + w;
    if q < k { MulMonotone(q + 1, k, w); }
    if q > k { MulMonotone(k + 1, q, w); }
  }

  /** A word belongs to shard `k` exactly when its hash lies in the `k`-th slice. */
  lemma ShardIsSlice(bits: Bits, k: nat, r: ResourceId)
    requires k < Pow2(bits)
    ensures ShardIndex(bits, r) == k <==> k * Pow2(64 - bits) <= Hash(r) < (k + 1) * Pow2(64 - bits)
  {
    if bits == 0 {
      Pow2Is64();
    }
    SliceOfHash(Hash(r), k, Pow2(64 - bits));
  }

  /** Each of the 2^bits shards owns exactly 2^(64 - bits) resource ids. */
  lemma ShardsAreEqual(bits: Bits, k: nat)
    requires k < Pow2(bits)
    ensures |OwnedBy(bits, k)| == Pow2(64 - bits)
  {
    hide Hash, ShardIndex, Pow2;
    Pow2Is64();
    var w := Pow2(64 - bits);
    Pow2Adds(bits, 64 - bits);
    MulMonotone(k + 1, Pow2(bits), w);
    MulMonotone(0, k, w);
    var slice := Interval(k * w, (k + 1) * w);
    var back := (h: int) => (h * FIB_INVERSE) % TWO_64;
    forall h | h in slice ensures 0 <= h < TWO_64 && back(h) in OwnedBy(bits, k) && Hash(back(h)) == h {
      HashIsBijection(h);
      ShardIsSlice(bits, k, back(h));
    }
    forall r | r in OwnedBy(bits, k) ensures Hash(r) in slice && back(Hash(r)) == r {
      HashIsBijection(r);
      ShardIsSlice(bits, k, r);
    }
    forall r: int ensures r in OwnedBy(bits, k) <==> exists h :: h in slice && back(h) == r {
      if r in OwnedBy(bits, k) {
        assert Hash(r) in slice && back(Hash(r)) == r;
      }
    }
    ImageCard(slice, OwnedBy(bits, k), back);
    SliceWidth(k, w);
  }

  lemma SliceWidth(k: int, w: int)
    ensures (k + 1) * w - k * w == w
  {
  }
}
