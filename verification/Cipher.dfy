/** The AEAD session cipher: an abstract sealed box plus the little-endian nonce counter. */
module CipherModel {
  import opened Arith
  import opened Bytes

  const TAG_LEN: nat := 16
  const N_MAX: nat := 24

  /** An AEAD construction with its key derivation. The functions are parameters of the model. */
  datatype Suite = Suite(
    saltLen: nat,
    nonceLen: nat,
    derive: (seq<byte>, seq<byte>) -> seq<byte>,
    seal: (seq<byte>, seq<byte>, seq<byte>) -> seq<byte>,
    open: (seq<byte>, seq<byte>, seq<byte>) -> Option<seq<byte>>)

  /** What the model asks of an AEAD: sealing adds a tag, and opening undoes it, in place. */
  ghost predicate Correct(s: Suite) {
    && 0 < s.saltLen
    && 1 <= s.nonceLen <= N_MAX
    && (forall k, n, p :: |s.seal(k, n, p)| == |p| + TAG_LEN && s.open(k, n, s.seal(k, n, p)) == Some(p))
    && (forall k, n, c :: s.open(k, n, c).Some? ==> |s.open(k, n, c).value| + TAG_LEN == |c|)
  }

  /** The requirements can be met, if not securely: a tag of zeros behind the plaintext meets them. */
  lemma SuitesExist()
    ensures exists s :: Correct(s)
  {
    var tag: seq<byte> := seq(TAG_LEN, _ => 0);
    var seal := (k: seq<byte>, n: seq<byte>, p: seq<byte>) => p + tag;
    var open := (k: seq<byte>, n: seq<byte>, c: seq<byte>) =>
      if |c| >= TAG_LEN && c[|c| - TAG_LEN..] == tag then Some(c[..|c| - TAG_LEN]) else None;
    var s := Suite(16, 12, (k: seq<byte>, salt: seq<byte>) => k, seal, open);
    forall k: seq<byte>, n: seq<byte>, p: seq<byte>
      ensures |s.seal(k, n, p)| == |p| + TAG_LEN && s.open(k, n, s.seal(k, n, p)) == Some(p)
    {
      assert (p + tag)[|p|..] == tag && (p + tag)[..|p|] == p;
    }
    assert Correct(s);
  }

  // ----- little-endian counters -----

  function Pow256(n: nat): (r: nat)
    ensures r > 0
  {
    if n == 0 then 1 else 256 * Pow256(n - 1)
  }

  /** The number a little-endian byte string stands for. */
  function LittleEndian(s: seq<byte>): (r: nat) {
    if s == [] then 0 else s[0] + 256 * LittleEndian(s[1..])
  }

  /** The `n` low bytes of `c`, little-endian: the nonce of operation number `c`. */
  function NonceAt(n: nat, c: nat): (r: seq<byte>)
    ensures |r| == n
    decreases n
  {
    if n == 0 then [] else [c % 256] + NonceAt(n - 1, c / 256)
  }

  lemma {:induction false} LittleEndianSnoc(s: seq<byte>, x: byte)
    ensures LittleEndian(s + [x]) == LittleEndian(s) + x * Pow256(|s|)
  {
    if s == [] {
      assert s + [x] == [x];
      assert LittleEndian([x]) == x + 256 * LittleEndian([]);
    } else {
      assert (s + [x])[1..] == s[1..] + [x];
      LittleEndianSnoc(s[1..], x);
      assert 256 * (x * Pow256(|s| - 1)) == x * Pow256(|s|);
    }
  }

  lemma {:induction false} LittleEndianBound(s: seq<byte>)
    ensures LittleEndian(s) < Pow256(|s|)
  {
    if s != [] {
      LittleEndianBound(s[1..]);
    }
  }

  lemma {:induction false} LittleEndianInjective(s: seq<byte>, t: seq<byte>)
    requires |s| == |t| && LittleEndian(s) == LittleEndian(t)
    ensures s == t
  {
    if s != [] {
      LittleEndianInjective(s[1..], t[1..]);
      assert s == [s[0]] + s[1..] && t == [t[0]] + t[1..];
    }
  }

  // Division facts, kept free of the functions above so that each stays cheap.

  lemma ModOfLowByte(c: nat, p: nat)
    requires 0 < p
    ensures c % (256 * p) == c % 256 + 256 * ((c / 256) % p)
  {
    var q, r := (c / 256) / p, (c / 256) % p;
    assert c / 256 == q * p + r;
    assert q * (256 * p) == 256 * (q * p);
    DivModUnique(c, q, 256 * r + c % 256, 256 * p);
  }

  lemma ModSuccessor(c: nat, m: nat)
    requires 0 < m
    ensures (c % m + 1) % m == (c + 1) % m
  {
    var q, r := c / m, c % m;
    assert c == q * m + r;
    if r + 1 < m {
      DivModUnique(c + 1, q, r + 1, m);
      DivModUnique(r + 1, 0, r + 1, m);
    } else {
      assert (q + 1) * m == q * m + m;
      DivModUnique(c + 1, q + 1, 0, m);
      DivModUnique(r + 1, 1, 0, m);
    }
  }

  lemma ModApart(c: nat, d: nat, m: nat)
    requires c < d < c + m
    ensures c % m != d % m
  {
    var q, r := c / m, c % m;
    assert c == q * m + r;
    if r + (d - c) < m {
      DivModUnique(d, q, r + (d - c), m);
    } else {
      assert (q + 1) * m == q * m + m;
      DivModUnique(d, q + 1, r + (d - c) - m, m);
    }
  }

  lemma {:induction false} LittleEndianOfNonceAt(n: nat, c: nat)
    ensures LittleEndian(NonceAt(n, c)) == c % Pow256(n)
    decreases n
  {
    if n > 0 {
      LittleEndianOfNonceAt(n - 1, c / 256);
      assert NonceAt(n, c)[1..] == NonceAt(n - 1, c / 256);
      ModOfLowByte(c, Pow256(n - 1));
    }
  }

  /** Adding one to the bytes of operation `c` gives the bytes of operation `c + 1`, wrap-around included. */
  lemma NonceSuccessor(n: nat, c: nat, t: seq<byte>)
    requires |t| == n && LittleEndian(t) == (LittleEndian(NonceAt(n, c)) + 1) % Pow256(n)
    ensures t == NonceAt(n, c + 1)
  {
    LittleEndianOfNonceAt(n, c);
    LittleEndianOfNonceAt(n, c + 1);
    ModSuccessor(c, Pow256(n));
    LittleEndianInjective(t, NonceAt(n, c + 1));
  }

  /** Nonce distinctness: two operations less than 256^n apart never share a nonce. */
  lemma NonceDistinct(n: nat, c: nat, d: nat)
    requires c < d < c + Pow256(n)
    ensures NonceAt(n, c) != NonceAt(n, d)
  {
    LittleEndianOfNonceAt(n, c);
    LittleEndianOfNonceAt(n, d);
    ModApart(c, d, Pow256(n));
  }

  /** Byte `i` of the nonce of operation `c` is digit `i` of `c` to base 256, lowest first. */
  lemma {:induction false} NonceByte(n: nat, c: nat, i: nat)
    requires i < n
    ensures NonceAt(n, c)[i] == c / Pow256(i) % 256
  {
    if i > 0 {
      NonceByte(n - 1, c / 256, i - 1);
      assert Pow256(i) == 256 * Pow256(i - 1);
      hide Pow256;
      DropLowByte(c, Pow256(i - 1));
    }
  }

  lemma DropLowByte(c: nat, p: nat)
    requires 0 < p
    ensures c / 256 / p == c / (256 * p)
  {
    var a := c / 256;
    var q, r := a / p, a % p;
    assert a == q * p + r;
    assert q * (256 * p) == 256 * (q * p) by {
      Regroup(q, 256, p);
      Regroup(256, q, p);
    }
    DivModUnique(c, q, 256 * r + c % 256, 256 * p);
  }

  /** For the 12-byte nonces of AES-GCM the counter has 2^96 values. */
  lemma TwelveByteNonces()
    ensures Pow256(12) == 0x1_0000_0000_0000_0000_0000_0000
  {
    assert Pow256(4) == 0x1_0000_0000;
    assert Pow256(8) == 0x1_0000_0000_0000_0000;
  }

  class Cipher {
    const suite: Suite
    const subkey: seq<byte>
    const nlen: nat
    const nonce: array<byte>
    /** Number of encrypt and decrypt calls so far. */
    ghost var used: nat

    ghost predicate Valid()
      reads this, nonce
    {
      && 1 <= nlen == suite.nonceLen <= N_MAX
      && nonce.Length == N_MAX
      && nonce[..nlen] == NonceAt(nlen, used)
    }

    /** The bytes past the nonce length are never written. */
    ghost predicate TailIsZero()
      reads nonce
    {
      nonce.Length == N_MAX && forall i :: nlen <= i < N_MAX ==> nonce[i] == 0
    }

    constructor (suite: Suite, key: seq<byte>, salt: seq<byte>)
      requires 1 <= suite.nonceLen <= N_MAX
      ensures Valid() && TailIsZero() && fresh(nonce) && used == 0
      ensures this.suite == suite && subkey == suite.derive(key, salt)
    {
      this.suite := suite;
      this.subkey := suite.derive(key, salt);
      this.nlen := suite.nonceLen;
      nonce := new byte[N_MAX](_ => 0);
      used := 0;
      new;
      ZeroNonce(nlen);
      assert nonce[..nlen] == NonceAt(nlen, 0);
    }

    /** Adds one to the first `nlen` bytes, little-endian, modulo 256^nlen; the other bytes stay. */
    method IncreaseNonce()
      requires nonce.Length == N_MAX && 1 <= nlen <= N_MAX
      modifies nonce
      ensures LittleEndian(nonce[..nlen]) == (old(LittleEndian(nonce[..nlen])) + 1) % Pow256(nlen)
      ensures nonce[nlen..] == old(nonce[nlen..])
    {
      hide LittleEndian, Pow256, Carried;
      ghost var before := nonce[..];
      var c: int := nonce[0] as int + 1;
      nonce[0] := c % 256;
      c := c / 256;
      CarriedFirst(before[0]);
      assert nonce[..1] == [nonce[0]] && before[..1] == [before[0]];
      var n := 1;
      while n < nlen
        invariant 1 <= n <= nlen
        invariant nonce[n..] == before[n..]
        invariant 0 <= c && Carried(before[..n], nonce[..n], c)
      {
        ghost var low := nonce[..n];
        assert nonce[n] == nonce[n..][0] == before[n];
        CarriedSnoc(before[..n], low, c, before[n]);
        c := c + nonce[n] as int;
        nonce[n] := c % 256;
        c := c / 256;
        assert nonce[..n + 1] == low + [nonce[n]] && before[..n + 1] == before[..n] + [before[n]];
        assert nonce[n + 1..] == before[n + 1..];
        n := n + 1;
      }
      CarriedWraps(before[..nlen], nonce[..nlen], c);
    }

    /** Seals `plain` under the current nonce and moves to the next one. */
    method Encrypt(plain: seq<byte>) returns (sealed: seq<byte>)
      requires Valid()
      modifies this, nonce
      ensures Valid() && used == old(used) + 1 && (old(TailIsZero()) ==> TailIsZero())
      ensures sealed == suite.seal(subkey, NonceAt(nlen, old(used)), plain)
    {
      sealed := suite.seal(subkey, nonce[..nlen], plain);
      Step();
    }

    /** Opens `sealed` under the current nonce; the counter moves whether or not that succeeds. */
    method Decrypt(sealed: seq<byte>) returns (plain: Option<seq<byte>>)
      requires Valid()
      modifies this, nonce
      ensures Valid() && used == old(used) + 1 && (old(TailIsZero()) ==> TailIsZero())
      ensures plain == suite.open(subkey, NonceAt(nlen, old(used)), sealed)
    {
      plain := suite.open(subkey, nonce[..nlen], sealed);
      Step();
    }

    method Step()
      requires Valid()
      modifies this, nonce
      ensures Valid() && used == old(used) + 1 && (old(TailIsZero()) ==> TailIsZero())
    {
      ghost var tail := nonce[nlen..];
      IncreaseNonce();
      NonceSuccessor(nlen, used, nonce[..nlen]);
      used := used + 1;
      assert forall i :: nlen <= i < N_MAX ==> nonce[i] == nonce[nlen..][i - nlen] == tail[i - nlen];
    }
  }

  lemma {:induction false} ZeroNonce(n: nat)
    ensures NonceAt(n, 0) == seq(n, i => 0)
  {
    if n > 0 {
      ZeroNonce(n - 1);
      assert NonceAt(n, 0) == [0] + NonceAt(n - 1, 0);
    }
  }

  /** `low` with carry `c` is `was` plus one. */
  ghost predicate Carried(was: seq<byte>, low: seq<byte>, c: nat) {
    |low| == |was| && LittleEndian(low) + c * Pow256(|low|) == LittleEndian(was) + 1
  }

  lemma CarriedFirst(x: byte)
    ensures Carried([x], [(x as int + 1) % 256], (x as int + 1) / 256)
  {
    var y: byte := (x as int + 1) % 256;
    assert [x][1..] == [] && [y][1..] == [];
    assert Pow256(1) == 256;
  }

  lemma CarriedSnoc(was: seq<byte>, low: seq<byte>, c: nat, x: byte)
    requires Carried(was, low, c)
    ensures Carried(was + [x], low + [(c + x as int) % 256], (c + x as int) / 256)
  {
    var y: byte := (c + x as int) % 256;
    LittleEndianSnoc(was, x);
    LittleEndianSnoc(low, y);
    CarryStep(LittleEndian(low), LittleEndian(was), c, x, Pow256(|low|));
  }

  lemma CarriedWraps(was: seq<byte>, low: seq<byte>, c: nat)
    requires Carried(was, low, c)
    ensures LittleEndian(low) == (LittleEndian(was) + 1) % Pow256(|low|)
  {
    LittleEndianBound(low);
    DivModUnique(LittleEndian(was) + 1, c, LittleEndian(low), Pow256(|low|));
  }

  /** One byte of carry propagation, scaled by the weight `p` of that byte. */
  lemma CarryStep(low: nat, was: nat, carry: nat, digit: nat, p: nat)
    requires low + carry * p == was + 1
    ensures low + ((carry + digit) % 256) * p + ((carry + digit) / 256) * (256 * p) == was + digit * p + 1
  {
    var s := carry + digit;
    assert s == (s / 256) * 256 + s % 256;
    assert s * p == ((s / 256) * 256) * p + (s % 256) * p;
    assert ((s / 256) * 256) * p == (s / 256) * (256 * p);
    assert s * p == carry * p + digit * p;
  }
}
