/** Jump consistent hashing. */
module Hashing {
  import opened Arith

  const TWO_31: int := 0x8000_0000
  const TWO_33: int := 0x2_0000_0000
  const TWO_64: int := 0x1_0000_0000_0000_0000
  const I32_MAX: int := 0x7FFF_FFFF

  type u64 = x: int | 0 <= x < TWO_64

  /** `b * (2^31 / d)` in floating point, truncated: a parameter of the model. */
  type JumpScale = (int, int) -> int

  /**
   * What the model asks of floating point: the ratio `2^31 / d` is at least one for `d` up to 2^31, so
   * scaling a bucket number that a double holds exactly never makes it smaller.
   */
  ghost predicate Widens(scale: JumpScale) {
    forall b, d :: 1 <= b <= TWO_53 && 1 <= d <= TWO_31 ==> scale(b, d) >= b
  }

  /** Exact rational arithmetic is one way to meet it. */
  lemma WidensExists()
    ensures Widens((b, d) => if d == 0 then 0 else b * TWO_31 / d)
  {
    var scale: JumpScale := (b, d) => if d == 0 then 0 else b * TWO_31 / d;
    forall b, d | 1 <= b <= TWO_53 && 1 <= d <= TWO_31 ensures scale(b, d) >= b {
      ProductOrder(d, TWO_31, b);
      QuotientAtLeast(b, d, b * TWO_31);
    }
  }

  /** One step of the 64-bit linear congruential generator, wrapping. */
  function NextKey(key: u64): (r: u64) {
    (key * 2862933555777941757 + 1) % TWO_64
  }

  function NextJump(scale: JumpScale, key: u64, j: int): (r: int) {
    scale(j + 1, NextKey(key) / TWO_33 + 1)
  }

  lemma JumpsForward(scale: JumpScale, key: u64, j: int)
    requires Widens(scale) && 0 <= j < TWO_53
    ensures NextJump(scale, key, j) > j
  {
    assert 1 <= NextKey(key) / TWO_33 + 1 <= TWO_31;
  }

  /** The last jump target below `n`, from bucket `b` with candidate `j`. */
  function Jump(scale: JumpScale, key: u64, b: int, j: int, n: int): (r: int)
    requires Widens(scale) && 0 <= j && n <= TWO_53
    decreases n - j
  {
    if j < n then
      JumpsForward(scale, key, j);
      Jump(scale, NextKey(key), j, NextJump(scale, key, j), n)
    else b
  }

  function Bucket(scale: JumpScale, key: u64, n: int): (r: int)
    requires Widens(scale) && n <= TWO_53
  {
    Jump(scale, key, -1, 0, n)
  }

  /** The cast of a bucket to 32 bits. */
  function ToI32(b: int): (r: int)
    ensures -TWO_31 <= b < TWO_31 ==> r == b
    ensures -2147483648 <= r <= 2147483647 && (b - r) % 4294967296 == 0
  {
    (b + TWO_31) % (2 * TWO_31) - TWO_31
  }

  // ----- the jump targets, in closed form -----

  function Power(a: nat, t: nat): (r: nat) {
    if t == 0 then 1 else a * Power(a, t - 1)
  }

  /** 1 + a + ... + a^(t-1). */
  function Geometric(a: nat, t: nat): (r: nat) {
    if t == 0 then 0 else Geometric(a, t - 1) + Power(a, t - 1)
  }

  lemma {:induction false} GeometricStep(a: nat, t: nat)
    ensures Geometric(a, t + 1) == a * Geometric(a, t) + 1
  {
    assert Geometric(a, t + 1) == Geometric(a, t) + Power(a, t);
    if t > 0 {
      GeometricStep(a, t - 1);
      var g, p := Geometric(a, t - 1), Power(a, t - 1);
      assert Geometric(a, t) == g + p && Power(a, t) == a * p;
      hide Geometric, Power;
      NextSum(a, g, p, Geometric(a, t), Power(a, t));
    } else {
      assert Geometric(a, t) == 0 && Power(a, t) == 1;
    }
  }

  lemma NextSum(a: int, g: int, p: int, sum: int, power: int)
    requires sum == g + p == a * g + 1 && power == a * p
    ensures sum + power == a * sum + 1
  {
    Distribute(g, p, a);
  }

  /** The state of the generator after `t` steps from `key`. */
  function KeyAt(key: u64, t: nat): (r: u64) {
    (Power(2862933555777941757, t) * key + Geometric(2862933555777941757, t)) % 0x1_0000_0000_0000_0000
  }

  lemma KeyStart(key: u64)
    ensures KeyAt(key, 0) == key
  {
  }

  lemma KeyStep(key: u64, t: nat)
    ensures KeyAt(key, t + 1) == NextKey(KeyAt(key, t))
  {
    var a := 2862933555777941757;
    var p, g := Power(a, t), Geometric(a, t);
    GeometricStep(a, t);
    assert Power(a, t + 1) == a * p;
    hide Power, Geometric;
    StepOfRemainder(p * key + g, a, TWO_64);
    Affine(a, p, key, g);
  }

  lemma Affine(a: int, p: int, k: int, g: int)
    ensures (p * k + g) * a + 1 == (a * p) * k + (a * g + 1)
  {
    Distribute(p * k, g, a);
    Regroup(a, p, k);
  }

  /** A linear step may be taken on the remainder. */
  lemma StepOfRemainder(x: nat, a: nat, m: nat)
    requires 0 < m
    ensures ((x % m) * a + 1) % m == (x * a + 1) % m
  {
    var q, r := x / m, x % m;
    var y := r * a + 1;
    assert x == q * m + r;
    Distribute(q * m, r, a);
    assert (q * m) * a == (q * a) * m by {
      Regroup(q, m, a);
      Regroup(q, a, m);
    }
    assert y == (y / m) * m + y % m;
    Distribute(q * a, y / m, m);
    DivModUnique(x * a + 1, q * a + y / m, y % m, m);
  }

  /** Jump target number `t`: the generator steps first, then its high 31 bits scale the next bucket number. */
  function Target(scale: JumpScale, key: u64, t: nat): (r: int) {
    if t == 0 then 0 else scale(Target(scale, key, t - 1) + 1, KeyAt(key, t) / 0x2_0000_0000 + 1)
  }

  /** The targets grow up to number `t + 1`, and number `t` is the last one below `n`. */
  ghost predicate LastBelow(scale: JumpScale, key: u64, t: nat, n: int) {
    && Target(scale, key, t) < n <= Target(scale, key, t + 1)
    && forall u :: 0 <= u <= t ==> Target(scale, key, u) < Target(scale, key, u + 1)
  }

  lemma TargetStep(scale: JumpScale, key: u64, t: nat)
    ensures Target(scale, key, t + 1) == NextJump(scale, KeyAt(key, t), Target(scale, key, t))
  {
    hide KeyAt, NextKey;
    KeyStep(key, t);
  }

  lemma {:induction false} JumpFrom(scale: JumpScale, key: u64, t: nat, b: int, n: int) returns (last: nat)
    requires Widens(scale) && n <= TWO_53 && 0 <= Target(scale, key, t) < n
    requires forall u :: 0 <= u < t ==> Target(scale, key, u) < Target(scale, key, u + 1)
    ensures LastBelow(scale, key, last, n)
    ensures Jump(scale, KeyAt(key, t), b, Target(scale, key, t), n) == Target(scale, key, last)
    decreases n - Target(scale, key, t)
  {
    hide KeyAt, NextKey, Target;
    var j := Target(scale, key, t);
    JumpsForward(scale, KeyAt(key, t), j);
    KeyStep(key, t);
    TargetStep(scale, key, t);
    if Target(scale, key, t + 1) < n {
      last := JumpFrom(scale, key, t + 1, j, n);
    } else {
      last := t;
    }
  }

  /** The bucket is the last target below the number of buckets. */
  lemma BucketIsTarget(scale: JumpScale, key: u64, n: int) returns (t: nat)
    requires Widens(scale) && 1 <= n <= TWO_53
    ensures LastBelow(scale, key, t, n) && Bucket(scale, key, n) == Target(scale, key, t)
  {
    KeyStart(key);
    t := JumpFrom(scale, key, 0, -1, n);
  }

  /**
   * For any positive number of buckets the result is the last of the increasing jump targets below it; without
   * buckets it is -1.
   */
  method JumpHash(scale: JumpScale, key0: u64, buckets: int) returns (r: int)
    requires Widens(scale) && buckets <= TWO_53
    ensures r == ToI32(Bucket(scale, key0, buckets))
    ensures 1 <= buckets ==> exists t :: LastBelow(scale, key0, t, buckets) && r == ToI32(Target(scale, key0, t))
    ensures buckets < 1 ==> r == -1
  {
    var key := key0;
    var b, j := -1, 0;
    while j < buckets
      invariant 0 <= j && Jump(scale, key, b, j, buckets) == Bucket(scale, key0, buckets)
      decreases buckets - j
    {
      JumpsForward(scale, key, j);
      b := j;
      j := NextJump(scale, key, b);
      key := NextKey(key);
    }
    r := ToI32(b);
    if 1 <= buckets {
      var t := BucketIsTarget(scale, key0, buckets);
    }
  }

  /** Once a jump starts below `n`, the result lies between that point and `n`. */
  lemma {:induction false} JumpBounds(scale: JumpScale, key: u64, b: int, j: int, n: int)
    requires Widens(scale) && 0 <= j < n <= TWO_53
    ensures j <= Jump(scale, key, b, j, n) < n
    decreases n - j
  {
    JumpsForward(scale, key, j);
    var k := NextJump(scale, key, j);
    if k < n {
      JumpBounds(scale, NextKey(key), j, k, n);
    }
  }

  /** The result is a bucket. */
  lemma BucketInRange(scale: JumpScale, key: u64, n: int)
    requires Widens(scale) && 1 <= n <= TWO_53
    ensures 0 <= Bucket(scale, key, n) < n
  {
    JumpBounds(scale, key, -1, 0, n);
  }

  lemma {:induction false} JumpConsistent(scale: JumpScale, key: u64, b: int, j: int, n: int, m: int)
    requires Widens(scale) && 0 <= j && n <= m <= TWO_53
    ensures Jump(scale, key, b, j, m) == Jump(scale, key, b, j, n) || n <= Jump(scale, key, b, j, m)
    decreases m - j
  {
    if j < n {
      JumpsForward(scale, key, j);
      JumpConsistent(scale, NextKey(key), j, NextJump(scale, key, j), n, m);
    } else if j < m {
      JumpBounds(scale, key, b, j, m);
    }
  }

  /** Consistency: growing from `n` to `m` buckets, a key stays where it was or moves to a new bucket. */
  lemma BucketConsistent(scale: JumpScale, key: u64, n: int, m: int)
    requires Widens(scale) && 1 <= n <= m <= TWO_53
    ensures Bucket(scale, key, m) == Bucket(scale, key, n) || n <= Bucket(scale, key, m) < m
  {
    JumpConsistent(scale, key, -1, 0, n, m);
    BucketInRange(scale, key, m);
  }

  /** A bucket with exact scaling: key 3 among 3. */
  lemma KnownBucketOfThree()
    ensures var scale: JumpScale := (b, d) => if d == 0 then 0 else b * TWO_31 / d;
            Widens(scale) && Bucket(scale, 3, 3) == 2
  {
    var scale: JumpScale := (b, d) => if d == 0 then 0 else b * TWO_31 / d;
    WidensExists();
    hide Widens;
    assert NextKey(3) == 8588800667333825272 && NextKey(8588800667333825272) == 16835445614176583449;
    assert NextJump(scale, 3, 0) == 2 && NextJump(scale, 8588800667333825272, 2) == 3;
    assert Jump(scale, 16835445614176583449, 2, 3, 3) == 2;
    assert Jump(scale, 8588800667333825272, 0, 2, 3) == 2;
  }

  /** And key 1 among 7. */
  lemma KnownBucketOfSeven()
    ensures var scale: JumpScale := (b, d) => if d == 0 then 0 else b * TWO_31 / d;
            Widens(scale) && Bucket(scale, 1, 7) == 6
  {
    var scale: JumpScale := (b, d) => if d == 0 then 0 else b * TWO_31 / d;
    WidensExists();
    hide Widens;
    assert NextKey(1) == 2862933555777941758 && NextKey(2862933555777941758) == 7520437575244155655;
    assert NextJump(scale, 1, 0) == 6 && NextJump(scale, 2862933555777941758, 6) == 17;
    assert Jump(scale, 7520437575244155655, 6, 17, 7) == 6;
    assert Jump(scale, 2862933555777941758, 0, 6, 7) == 6;
  }
}
