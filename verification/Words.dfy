/** Fixed-width machine words as bounded integers, with the bitwise operators of the source
    written out on binary digits, and the two byte orders. */
module Words {

  type u8 = x: int | 0 <= x < 0x100
  type u16 = x: int | 0 <= x < 0x1_0000
  type u32 = x: int | 0 <= x < 0x1_0000_0000
  type u64 = x: int | 0 <= x < 0x1_0000_0000_0000_0000

  datatype Option<+T> = None | Some(value: T)

  /** The word `1 << n`. */
  function Pow2(n: nat): (p: nat)
    ensures p >= 1
  {
    if n == 0 then 1 else 2 * Pow2(n - 1)
  }

  /** `(w >> k) & 1 != 0`: shifting drops one binary digit per place. */
  predicate Bit(w: nat, k: nat) {
    if k == 0 then w % 2 == 1 else Bit(w / 2, k - 1)
  }

  /** `a | b`, digit by digit. */
  function Or(a: nat, b: nat): nat {
    if a == 0 && b == 0 then 0
    else 2 * Or(a / 2, b / 2) + (if a % 2 == 1 || b % 2 == 1 then 1 else 0)
  }

  /** `a ^ b`, digit by digit. */
  function Xor(a: nat, b: nat): nat {
    if a == 0 && b == 0 then 0
    else 2 * Xor(a / 2, b / 2) + (if a % 2 != b % 2 then 1 else 0)
  }

  lemma {:induction false} ZeroHasNoBits(k: nat)
    ensures !Bit(0, k)
  {
    if k == 0 {
    } else {
      ZeroHasNoBits(k - 1);
    }
  }

  lemma {:induction false} OrBit(a: nat, b: nat, k: nat)
    ensures Bit(Or(a, b), k) <==> Bit(a, k) || Bit(b, k)
  {
    if a == 0 && b == 0 {
      ZeroHasNoBits(k);
    } else if k > 0 {
      OrBit(a / 2, b / 2, k - 1);
    }
  }

  lemma {:induction false} XorBit(a: nat, b: nat, k: nat)
    ensures Bit(Xor(a, b), k) <==> Bit(a, k) != Bit(b, k)
  {
    if a == 0 && b == 0 {
      ZeroHasNoBits(k);
    } else if k > 0 {
      XorBit(a / 2, b / 2, k - 1);
    }
  }

  /** An `|` of two n-bit words is an n-bit word. */
  lemma {:induction false} OrFits(a: nat, b: nat, n: nat)
    requires a < Pow2(n) && b < Pow2(n)
    ensures Or(a, b) < Pow2(n)
  {
    if n > 0 && (a != 0 || b != 0) { OrFits(a / 2, b / 2, n - 1); }
  }

  lemma {:induction false} Pow2Bit(n: nat, k: nat)
    ensures Bit(Pow2(n), k) <==> k == n
  {
    if n > 0 && k > 0 {
      Pow2Bit(n - 1, k - 1);
    } else if k > 0 {
      ZeroHasNoBits(k - 1);
    }
  }

  /** `(1 << n) - 1` has exactly its n lowest bits set. */
  lemma {:induction false} MaskBit(n: nat, k: nat)
    ensures Bit(Pow2(n) - 1, k) <==> k < n
  {
    if n == 0 {
      ZeroHasNoBits(k);
    } else if k > 0 {
      assert (Pow2(n) - 1) / 2 == Pow2(n - 1) - 1;
      MaskBit(n - 1, k - 1);
    }
  }

  /** A word is determined by its bits. */
  lemma {:induction false} BitsDetermine(a: nat, b: nat, n: nat)
    requires a < Pow2(n) && b < Pow2(n)
    requires forall k: nat :: k < n ==> (Bit(a, k) <==> Bit(b, k))
    ensures a == b
  {
    if n == 0 {
    } else {
      forall k: nat | k < n - 1 ensures Bit(a / 2, k) <==> Bit(b / 2, k) {
        assert Bit(a, k + 1) <==> Bit(b, k + 1);
      }
      BitsDetermine(a / 2, b / 2, n - 1);
      assert Bit(a, 0) <==> Bit(b, 0);
    }
  }

  lemma Pow2Of32()
    ensures Pow2(32) == 0x1_0000_0000
  {
    assert Pow2(8) == 0x100;
    assert Pow2(16) == 0x1_0000 by { assert Pow2(12) == 0x1000; }
    assert Pow2(24) == 0x100_0000 by { assert Pow2(20) == 0x10_0000; }
    assert Pow2(28) == 0x1000_0000;
  }

  lemma Pow2Of64()
    ensures Pow2(62) == 0x4000_0000_0000_0000
    ensures Pow2(64) == 0x1_0000_0000_0000_0000
  {
    assert Pow2(8) == 0x100;
    assert Pow2(16) == 0x1_0000;
    assert Pow2(24) == 0x100_0000;
    assert Pow2(32) == 0x1_0000_0000;
    assert Pow2(40) == 0x100_0000_0000;
    assert Pow2(48) == 0x1_0000_0000_0000;
    assert Pow2(56) == 0x100_0000_0000_0000;
  }

  lemma {:induction false} Pow2Monotone(m: nat, n: nat)
    requires m < n
    ensures 2 * Pow2(m) <= Pow2(n)
  {
    if m + 1 < n { Pow2Monotone(m, n - 1); }
  }

  lemma AppendAssoc<T>(a: seq<T>, b: seq<T>, c: seq<T>)
    ensures (a + b) + c == a + (b + c)
  {
  }

  // ----- byte orders -----

  /** `u16::to_be_bytes` */
  function Be16(v: u16): (s: seq<u8>)
    ensures |s| == 2
  {
    [v / 0x100, v % 0x100]
  }

  /** `u16::from_be_bytes` */
  function FromBe16(hi: u8, lo: u8): u16 {
    hi * 0x100 + lo
  }

  /** `u16::from_le_bytes` */
  function FromLe16(lo: u8, hi: u8): u16 {
    lo + 0x100 * hi
  }

  /** `n` low-order bytes of `v`, least significant first (`to_le_bytes`). */
  function LeBytes(v: nat, n: nat): (s: seq<u8>)
    ensures |s| == n
  {
    if n == 0 then [] else [v % 0x100] + LeBytes(v / 0x100, n - 1)
  }

  /** `from_le_bytes` */
  function FromLe(s: seq<u8>): nat {
    if s == [] then 0 else s[0] + 0x100 * FromLe(s[1..])
  }

  lemma {:induction false} LeRoundTrip(v: nat, n: nat)
    requires v < Pow2(8 * n)
    ensures FromLe(LeBytes(v, n)) == v
  {
    if n == 0 {
    } else {
      assert Pow2(8 * n) == 0x100 * Pow2(8 * (n - 1)) by { Pow2Byte(8 * (n - 1)); }
      LeRoundTrip(v / 0x100, n - 1);
      assert LeBytes(v, n)[1..] == LeBytes(v / 0x100, n - 1);
    }
  }

  lemma {:induction false} LeBytesOfFromLe(s: seq<u8>)
    ensures LeBytes(FromLe(s), |s|) == s
  {
    if s == [] {
    } else {
      LeBytesOfFromLe(s[1..]);
      assert FromLe(s) % 0x100 == s[0] && FromLe(s) / 0x100 == FromLe(s[1..]);
      assert s == [s[0]] + s[1..];
    }
  }

  lemma {:induction false} FromLeFits(s: seq<u8>)
    ensures FromLe(s) < Pow2(8 * |s|)
  {
    if s == [] {
    } else {
      FromLeFits(s[1..]);
      Pow2Byte(8 * (|s| - 1));
    }
  }

  lemma Pow2Byte(n: nat)
    ensures Pow2(n + 8) == 0x100 * Pow2(n)
  {
    assert Pow2(n + 2) == 4 * Pow2(n);
    assert Pow2(n + 4) == 16 * Pow2(n);
    assert Pow2(n + 6) == 64 * Pow2(n);
  }

  lemma Distribute(a: int, b: int, d: nat)
    ensures (a - b) * d == a * d - b * d
    ensures a > b ==> a * d - b * d >= d
  {
    assert (a - b) * d == a * d - b * d;
    if a > b { ScaleAtLeast(a - b, d); }
  }

  lemma {:induction false} ScaleAtLeast(k: int, d: nat)
    requires k >= 1
    ensures k * d >= d
  {
    if k == 1 {
    } else {
      ScaleAtLeast(k - 1, d);
      assert k * d == (k - 1) * d + d;
    }
  }

  lemma QuotientUnique(q: int, r: nat, q': int, r': nat, d: nat)
    requires r < d && r' < d && q * d + r == q' * d + r'
    ensures q == q' && r == r'
  {
    Distribute(q, q', d);
    Distribute(q', q, d);
  }

  /** Euclid: `q * d + r` divides back into `q` and `r`. */
  lemma DivModUnique(q: nat, d: nat, r: nat)
    requires r < d
    ensures (q * d + r) / d == q && (q * d + r) % d == r
  {
    var n := q * d + r;
    QuotientUnique(n / d, n % d, q, r, d);
  }

  // ----- digits of shifted and combined words -----

  /** Digits from place `n` on are those of the high part. */
  lemma {:induction false} BitHigh(hi: nat, lo: nat, n: nat, k: nat)
    requires lo < Pow2(n)
    ensures Bit(hi * Pow2(n) + lo, n + k) <==> Bit(hi, k)
  {
    if n == 0 {
      assert hi * Pow2(0) + lo == hi;
    } else {
      var half := hi * Pow2(n - 1);
      assert hi * Pow2(n) == 2 * half;
      BitHigh(hi, lo / 2, n - 1, k);
    }
  }

  /** Digits below place `n` are those of the low part. */
  lemma {:induction false} BitLow(hi: nat, lo: nat, n: nat, k: nat)
    requires k < n
    ensures Bit(hi * Pow2(n) + lo, k) <==> Bit(lo, k)
  {
    var half := hi * Pow2(n - 1);
    assert hi * Pow2(n) == 2 * half;
    if k == 0 {
    } else {
      BitLow(hi, lo / 2, n - 1, k - 1);
    }
  }

  /** Digit `k` of a little-endian word is digit `k % 8` of byte `k / 8`. */
  lemma {:induction false} LeBit(s: seq<u8>, k: nat)
    requires k < 8 * |s|
    ensures Bit(FromLe(s), k) <==> Bit(s[k / 8], k % 8)
  {
    assert Pow2(8) == 0x100;
    var rest := FromLe(s[1..]);
    if k < 8 {
      BitLow(rest, s[0], 8, k);
    } else {
      BitHigh(rest, s[0], 8, k - 8);
      LeBit(s[1..], k - 8);
      assert (k - 8) / 8 == k / 8 - 1 && (k - 8) % 8 == k % 8;
    }
  }
}
