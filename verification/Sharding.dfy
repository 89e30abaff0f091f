/** Which bucket a key belongs to: the top bits of its first eight bytes. */
module Sharding {
  import opened PowersOfTwo
  import opened StorageModel

  /** The bytes read as one big-endian number. */
  function BigEndian(bytes: seq<byte>): (r: nat) {
    if bytes == [] then 0 else BigEndian(bytes[..|bytes| - 1]) * 256 + bytes[|bytes| - 1]
  }

  /** The first eight bytes of a key as a number; shorter inputs fail the assertion. */
  function ReadBeU64(input: seq<byte>): (r: nat)
    requires |input| >= 8
  {
    BigEndian(input[..8])
  }

  lemma {:induction false} BigEndianBound(bytes: seq<byte>)
    ensures BigEndian(bytes) < Pow2(8 * |bytes|)
  {
    if bytes != [] {
      var init := bytes[..|bytes| - 1];
      BigEndianBound(init);
      Pow2Adds(8 * |init|, 8);
      assert Pow2(8) == 256;
    }
  }

  /** Lexicographic order, which is how keys compare. */
  predicate KeyLess(a: seq<byte>, b: seq<byte>) {
    exists n :: 0 <= n < |a| && n < |b| && a[..n] == b[..n] && a[n] < b[n]
  }

  /** A common prefix followed by a smaller byte makes a smaller number. */
  lemma {:induction false} BigEndianOrdered(a: seq<byte>, b: seq<byte>, n: nat)
    requires |a| == |b| && n < |a| && a[..n] == b[..n] && a[n] < b[n]
    ensures BigEndian(a) < BigEndian(b)
    decreases |a|
  {
    var a', b' := a[..|a| - 1], b[..|b| - 1];
    if n == |a| - 1 {
      assert a' == b';
    } else {
      assert a'[..n] == a[..n] && b'[..n] == b[..n];
      BigEndianOrdered(a', b', n);
    }
  }

  lemma ReadOrdered(a: Pubkey, b: Pubkey)
    requires KeyLess(a, b)
    ensures ReadBeU64(a) <= ReadBeU64(b)
  {
    var n :| 0 <= n < |a| && n < |b| && a[..n] == b[..n] && a[n] < b[n];
    var x, y := a[..8], b[..8];
    if n < 8 {
      assert x[..n] == a[..n] && y[..n] == b[..n];
      BigEndianOrdered(x, y, n);
    } else {
      assert x == a[..n][..8] && y == b[..n][..8];
    }
  }

  /** `x >> n`. */
  function ShiftRight(x: nat, n: nat): (r: nat) {
    if n == 0 then x else ShiftRight(x / 2, n - 1)
  }

  lemma {:induction false} ShiftBound(x: nat, n: nat, p: nat)
    requires x < Pow2(p + n)
    ensures ShiftRight(x, n) < Pow2(p)
    decreases n
  {
    if n > 0 {
      ShiftBound(x / 2, n - 1, p);
    }
  }

  lemma {:induction false} ShiftMonotone(x: nat, y: nat, n: nat)
    requires x <= y
    ensures ShiftRight(x, n) <= ShiftRight(y, n)
    decreases n
  {
    if n > 0 {
      ShiftMonotone(x / 2, y / 2, n - 1);
    }
  }

  /** The bucket of a key among `2^maxBucketsPow2`. */
  function BucketIx(maxBucketsPow2: nat, key: Pubkey): nat
    requires maxBucketsPow2 <= 64
  {
    if maxBucketsPow2 > 0 then ShiftRight(ReadBeU64(key), 64 - maxBucketsPow2) else 0
  }

  lemma BucketIxInRange(p: nat, key: Pubkey)
    requires p <= 64
    ensures BucketIx(p, key) < Pow2(p)
  {
    if p > 0 {
      BigEndianBound(key[..8]);
      ShiftBound(ReadBeU64(key), 64 - p, p);
    }
  }

  /** Buckets follow key order, so each holds a contiguous range of keys. */
  lemma BucketIxMonotone(p: nat, a: Pubkey, b: Pubkey)
    requires p <= 64 && KeyLess(a, b)
    ensures BucketIx(p, a) <= BucketIx(p, b)
  {
    if p > 0 {
      ReadOrdered(a, b);
      ShiftMonotone(ReadBeU64(a), ReadBeU64(b), 64 - p);
    }
  }

  /** A key between two keys of a bucket is in that bucket. */
  lemma ShardsAreContiguous(p: nat, a: Pubkey, b: Pubkey, c: Pubkey)
    requires p <= 64 && KeyLess(a, b) && KeyLess(b, c) && BucketIx(p, a) == BucketIx(p, c)
    ensures BucketIx(p, b) == BucketIx(p, a)
  {
    BucketIxMonotone(p, a, b);
    BucketIxMonotone(p, b, c);
  }

  lemma BigEndianAppends(bytes: seq<byte>, k: nat)
    requires k < |bytes|
    ensures BigEndian(bytes[..k + 1]) == BigEndian(bytes[..k]) * 256 + bytes[k]
  {
    assert bytes[..k + 1][..k] == bytes[..k];
  }

  /** The first byte of a key is the most significant of eight. */
  lemma FirstEightBytes(key: Pubkey)
    ensures ReadBeU64(key)
            == (key[0] as int) * 0x100_0000_0000_0000 + (key[1] as int) * 0x1_0000_0000_0000
               + (key[2] as int) * 0x100_0000_0000 + (key[3] as int) * 0x1_0000_0000 + (key[4] as int) * 0x100_0000
               + (key[5] as int) * 0x1_0000 + (key[6] as int) * 0x100 + key[7] as int
  {
    hide BigEndian;
    BigEndianAppends(key, 0);
    BigEndianAppends(key, 1);
    BigEndianAppends(key, 2);
    BigEndianAppends(key, 3);
    BigEndianAppends(key, 4);
    BigEndianAppends(key, 5);
    BigEndianAppends(key, 6);
    BigEndianAppends(key, 7);
    assert BigEndian(key[..0]) == 0 by {
      BigEndianBound(key[..0]);
    }
  }

  lemma {:induction false} ShiftExact(x: nat, n: nat)
    ensures ShiftRight(x, n) * Pow2(n) <= x < (ShiftRight(x, n) + 1) * Pow2(n)
    decreases n
  {
    if n > 0 {
      ShiftExact(x / 2, n - 1);
      TwiceBounds(ShiftRight(x / 2, n - 1), Pow2(n - 1), x / 2);
    }
  }

  lemma TwiceBounds(y: nat, half: nat, x: nat)
    requires y * half <= x < (y + 1) * half
    ensures y * (2 * half) <= 2 * x && 2 * x + 2 <= (y + 1) * (2 * half)
  {
    assert y * (2 * half) == 2 * (y * half) && (y + 1) * (2 * half) == 2 * ((y + 1) * half);
  }

  /** Bucket `i` of `2^p` takes the keys whose first eight bytes lie in the `i`-th of `2^p` equal ranges. */
  lemma ShardRange(p: nat, key: Pubkey, i: nat)
    requires p <= 64
    ensures BucketIx(p, key) == i <==> i * Pow2(64 - p) <= BigEndian(key[..8]) < (i + 1) * Pow2(64 - p)
  {
    hide BigEndian, ShiftRight, Pow2;
    var n := BigEndian(key[..8]);
    if p > 0 {
      ShiftExact(n, 64 - p);
    } else {
      BigEndianBound(key[..8]);
    }
    OneRange(n, Pow2(64 - p), BucketIx(p, key), i);
  }

  lemma OneRange(n: nat, width: nat, ix: nat, i: nat)
    requires ix * width <= n < (ix + 1) * width
    ensures ix == i <==> i * width <= n < (i + 1) * width
  {
    if i < ix {
      MultipleDistance(ix, i, width);
    } else if ix < i {
      MultipleDistance(i, ix, width);
    }
  }

  /** `n` as `k` bytes, the most significant one first. */
  function ToBytes(n: nat, k: nat): (bytes: seq<byte>)
    ensures |bytes| == k
  {
    if k == 0 then [] else ToBytes(n / 256, k - 1) + [n % 256]
  }

  lemma {:induction false} BytesReadBack(n: nat, k: nat)
    requires n < Pow2(8 * k)
    ensures BigEndian(ToBytes(n, k)) == n
  {
    if k > 0 {
      Pow2Adds(8 * (k - 1), 8);
      assert Pow2(8) == 256;
      BytesReadBack(n / 256, k - 1);
      assert ToBytes(n, k)[..k - 1] == ToBytes(n / 256, k - 1);
    }
  }

  /** Every bucket is the bucket of some key. */
  lemma EveryShardHasKeys(p: nat, i: nat) returns (key: Pubkey)
    requires p <= 64 && i < Pow2(p)
    ensures BucketIx(p, key) == i
  {
    hide Pow2, BigEndian, BucketIx, ToBytes;
    var width := Pow2(64 - p);
    Pow2Adds(p, 64 - p);
    MultipleDistance(Pow2(p), i, width);
    key := ToBytes(i * width, 8) + seq(24, _ => 0);
    assert key[..8] == ToBytes(i * width, 8);
    BytesReadBack(i * width, 8);
    ShardRange(p, key, i);
  }

  // ---- how many buckets

  /** Bits below the leading one of a 64-bit word: `BITS - leading_zeros - 1`. */
  function Log2(x: nat): (r: nat)
    requires x > 0
    ensures Pow2(r) <= x < Pow2(r + 1)
  {
    if x == 1 then 0 else 1 + Log2(x / 2)
  }

  ghost predicate IsPowerOfTwo(x: nat) {
    exists p :: Pow2(p) == x
  }

  /** The logarithm is exact for exactly the bucket counts that are accepted. */
  lemma Log2Exact(x: nat)
    requires x > 0
    ensures Pow2(Log2(x)) == x <==> IsPowerOfTwo(x)
  {
    if IsPowerOfTwo(x) {
      var p: nat :| Pow2(p) == x;
      var r := Log2(x);
      if p < r {
        Pow2StrictlyIncreases(p, r);
      } else if p > r {
        Pow2Monotone(r + 1, p);
      }
    }
  }
}
