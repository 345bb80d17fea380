/** 64-bit machine words: the C operators on unsigned values, bit by bit, and
    the arithmetic forms that the proofs use; bytes within a word. */
module Words {

  const WORD_LIMIT: nat := 0x1_0000_0000_0000_0000

  type Word = x: nat | x < 0x1_0000_0000_0000_0000
  type Byte = x: nat | x < 256

  function Pow2(k: nat): (r: nat)
    ensures r > 0
  {
    if k == 0 then 1 else 2 * Pow2(k - 1)
  }

  /** C `a >> k` on an unsigned operand: the quotient by 2^k. */
  function Shr(a: nat, k: nat): nat {
    QuotientIsNat(a, Pow2(k));
    a / Pow2(k)
  }

  lemma QuotientIsNat(a: nat, d: nat)
    requires d > 0
    ensures a / d >= 0
  {
  }

  /** C `a << k` on a 64-bit unsigned operand: the product reduced modulo 2^64. */
  function Shl(a: nat, k: nat): Word {
    (a * Pow2(k)) % WORD_LIMIT
  }

  /** C `a & b`. */
  function And(a: nat, b: nat): nat {
    if a == 0 || b == 0 then 0
    else (if a % 2 == 1 && b % 2 == 1 then 1 else 0) + 2 * And(a / 2, b / 2)
  }

  /** C `a | b`. */
  function Or(a: nat, b: nat): nat {
    if a == 0 then b else if b == 0 then a
    else (if a % 2 == 1 || b % 2 == 1 then 1 else 0) + 2 * Or(a / 2, b / 2)
  }

  /** C `~a` on a 64-bit operand. */
  function Not(a: Word): Word {
    WORD_LIMIT - 1 - a
  }

  /** Masking with 2^k - 1 keeps the remainder modulo 2^k. */
  lemma {:induction false} AndLowMask(a: nat, k: nat)
    ensures And(a, Pow2(k) - 1) == a % Pow2(k)
  {
    if k > 0 {
      var p := Pow2(k - 1);
      AndLowMask(a / 2, k - 1);
      assert (Pow2(k) - 1) / 2 == p - 1 && (Pow2(k) - 1) % 2 == 1;
      HalveMod(a, p);
      if a == 0 {
        SmallMod(0, Pow2(k));
      }
    }
  }

  lemma HalveMod(a: nat, p: nat)
    requires p > 0
    ensures a % (2 * p) == a % 2 + 2 * (a / 2 % p)
  {
    var q, r := a / 2 / p, a / 2 % p;
    assert a == 2 * (q * p + r) + a % 2;
    assert a == q * (2 * p) + (2 * r + a % 2);
    DivModUnique(a, 2 * p, q, 2 * r + a % 2);
  }

  lemma DivModUnique(a: nat, d: nat, q: nat, r: nat)
    requires d > 0 && a == q * d + r && r < d
    ensures a / d == q && a % d == r
  {
    var q', r' := a / d, a % d;
    assert a == d * q' + r';
    DistributeDifference(q, q', d);
    if q' < q {
      GrowsByFactor(q - q', d);
    } else if q' > q {
      GrowsByFactor(q' - q, d);
    }
  }

  lemma DistributeDifference(x: int, y: int, d: int)
    ensures (x - y) * d == x * d - y * d
  {
  }

  lemma GrowsByFactor(x: nat, d: nat)
    requires x >= 1
    ensures x * d >= d
  {
    DistributeDifference(x, 1, d);
  }

  /** Masking with the complement of 2^k - 1 rounds down to a multiple of 2^k. */
  lemma {:induction false} AndHighMask(a: nat, m: nat, k: nat)
    requires k <= m && a < Pow2(m)
    ensures Pow2(k) <= Pow2(m)
    ensures And(a, Pow2(m) - Pow2(k)) == a - a % Pow2(k)
  {
    if k == 0 {
      AndLowMask(a, m);
      SmallMod(a, Pow2(m));
    } else {
      AndHighMask(a / 2, m - 1, k - 1);
      HalveMod(a, Pow2(k - 1));
    }
  }

  lemma SmallMod(a: nat, d: nat)
    requires a < d
    ensures a / d == 0 && a % d == a
  {
    DivModUnique(a, d, 0, a);
  }

  /** Or of a multiple of 2^k with a value: the low k bits are or-ed alone. */
  lemma {:induction false} OrAboveLow(h: nat, a: nat, b: nat, k: nat)
    requires a < Pow2(k) && b < Pow2(k)
    ensures Or(h * Pow2(k) + a, b) == h * Pow2(k) + Or(a, b)
  {
    if k > 0 {
      var p := Pow2(k - 1);
      assert h * Pow2(k) == 2 * (h * p);
      assert (h * Pow2(k) + a) / 2 == h * p + a / 2;
      assert (h * Pow2(k) + a) % 2 == a % 2;
      OrAboveLow(h, a / 2, b / 2, k - 1);
    }
  }

  /** Or of a multiple of 2^k with a value below 2^k adds them. */
  lemma OrAdds(h: nat, b: nat, k: nat)
    requires b < Pow2(k)
    ensures Or(h * Pow2(k), b) == h * Pow2(k) + b
  {
    OrAboveLow(h, 0, b, k);
  }

  lemma {:induction false} OrCommutes(a: nat, b: nat)
    ensures Or(a, b) == Or(b, a)
  {
    if a > 0 && b > 0 {
      OrCommutes(a / 2, b / 2);
    }
  }

  /** Byte k of a little-endian word. */
  function ByteOf(w: nat, k: nat): Byte {
    if k == 0 then w % 256 else ByteOf(w / 256, k - 1)
  }

  /** The word with byte k replaced. */
  function WithByte(w: nat, k: nat, b: Byte): nat {
    if k == 0 then w / 256 * 256 + b else WithByte(w / 256, k - 1, b) * 256 + w % 256
  }

  function Pow256(k: nat): (r: nat)
    ensures r > 0
  {
    if k == 0 then 1 else 256 * Pow256(k - 1)
  }

  lemma {:induction false} WithByteInRange(w: nat, k: nat, b: Byte, n: nat)
    requires w < Pow256(n) && k < n
    ensures WithByte(w, k, b) < Pow256(n)
  {
    if k > 0 {
      WithByteInRange(w / 256, k - 1, b, n - 1);
    }
  }

  lemma {:induction false} ByteOfWithByte(w: nat, k: nat, b: Byte, j: nat)
    ensures ByteOf(WithByte(w, k, b), j) == if j == k then b else ByteOf(w, j)
  {
    if k == 0 {
      assert (w / 256 * 256 + b) / 256 == w / 256;
    } else {
      assert WithByte(w, k, b) / 256 == WithByte(w / 256, k - 1, b);
      if j > 0 {
        ByteOfWithByte(w / 256, k - 1, b, j - 1);
      }
    }
  }

  /** Words with the same eight bytes are the same word. */
  lemma {:induction false} SameBytes(v: nat, w: nat, n: nat)
    requires v < Pow256(n) && w < Pow256(n)
    requires forall k :: 0 <= k < n ==> ByteOf(v, k) == ByteOf(w, k)
    ensures v == w
  {
    if n > 0 {
      assert ByteOf(v, 0) == ByteOf(w, 0);
      forall k | 0 <= k < n - 1 ensures ByteOf(v / 256, k) == ByteOf(w / 256, k) {
        assert ByteOf(v, k + 1) == ByteOf(w, k + 1);
      }
      SameBytes(v / 256, w / 256, n - 1);
    }
  }

  lemma {:induction false} ZeroBytes(k: nat)
    ensures ByteOf(0, k) == 0
  {
    if k > 0 { ZeroBytes(k - 1); }
  }

  lemma {:induction false} Pow2Adds(j: nat, k: nat)
    ensures Pow2(j + k) == Pow2(j) * Pow2(k)
  {
    if j > 0 {
      Pow2Adds(j - 1, k);
    }
  }

  lemma WordIsEightBytes()
    ensures Pow256(8) == WORD_LIMIT && Pow2(64) == WORD_LIMIT
  {
    assert Pow2(8) == 256;
    assert Pow256(8) == WORD_LIMIT;
    hide Pow2, Pow256;
    Pow2Adds(8, 8);
    Pow2Adds(16, 16);
    Pow2Adds(32, 32);
  }
}
