/** Numbers as bit lists, and the shifts and masks that act on them. The deflate
    format reads the bits of each byte from the least significant end and packs
    Huffman codes from their most significant end, so both orders are needed. */
module Bits {

  type byte = x: int | 0 <= x < 256

  function Bit(b: bool): (n: nat)
    ensures n <= 1
  {
    if b then 1 else 0
  }

  /** `1 << n` */
  function Pow2(n: nat): (p: nat)
    ensures p >= 1
  {
    if n == 0 then 1 else 2 * Pow2(n - 1)
  }

  /** `v << n` */
  function Shl(v: nat, n: nat): (r: nat) {
    if n == 0 then v else 2 * Shl(v, n - 1)
  }

  /** `v >> n` */
  function Shr(v: nat, n: nat): (r: nat) {
    if n == 0 then v else Shr(v / 2, n - 1)
  }

  /** `v & ((1 << n) - 1)` */
  function Low(v: nat, n: nat): (r: nat)
    ensures r < Pow2(n)
  {
    if n == 0 then 0 else v % 2 + 2 * Low(v / 2, n - 1)
  }

  /** The `n` low bits of `v`, least significant first. */
  function Lsb(v: nat, n: nat): (b: seq<bool>)
    ensures |b| == n
  {
    if n == 0 then [] else [v % 2 == 1] + Lsb(v / 2, n - 1)
  }

  /** The number whose bits, least significant first, are `b`. */
  function Value(b: seq<bool>): (v: nat)
    ensures v < Pow2(|b|)
  {
    if b == [] then 0 else Bit(b[0]) + 2 * Value(b[1..])
  }

  /** The `n` low bits of `v`, most significant first: a code word of `n` bits. */
  function Msb(v: nat, n: nat): (b: seq<bool>)
    ensures |b| == n
  {
    if n == 0 then [] else Msb(v / 2, n - 1) + [v % 2 == 1]
  }

  /** All bits of a byte string, in the order the format reads them. */
  function Stream(data: seq<byte>): (b: seq<bool>)
    ensures |b| == 8 * |data|
  {
    if data == [] then [] else Lsb(data[0], 8) + Stream(data[1..])
  }

  // ----- shifts -----

  lemma {:induction false} ShlAdd(a: nat, b: nat, n: nat)
    ensures Shl(a + b, n) == Shl(a, n) + Shl(b, n)
  {
    if n > 0 { ShlAdd(a, b, n - 1); }
  }

  lemma {:induction false} ShlOne(n: nat)
    ensures Shl(1, n) == Pow2(n)
  {
    if n > 0 { ShlOne(n - 1); }
  }

  lemma {:induction false} ShlPow2(m: nat, n: nat)
    ensures Shl(Pow2(m), n) == Pow2(m + n)
  {
    if n > 0 { ShlPow2(m, n - 1); }
  }

  /** Shifting left keeps the order and spreads neighbours by `1 << n`. */
  lemma {:induction false} ShlOrder(a: nat, b: nat, n: nat)
    ensures a <= b <==> Shl(a, n) <= Shl(b, n)
    ensures a < b ==> Shl(a, n) + Pow2(n) <= Shl(b, n)
  {
    if n > 0 { ShlOrder(a, b, n - 1); }
  }

  /** Every number is its high bits shifted left plus its low bits. */
  lemma {:induction false} SplitAt(v: nat, n: nat)
    ensures v == Shl(Shr(v, n), n) + Low(v, n)
  {
    if n > 0 {
      SplitAt(v / 2, n - 1);
    }
  }

  lemma ShrBound(v: nat, m: nat, n: nat)
    requires n <= m && v < Pow2(m)
    ensures Shr(v, n) < Pow2(m - n)
  {
    SplitAt(v, n);
    ShlPow2(m - n, n);
    ShlOrder(Pow2(m - n), Shr(v, n), n);
  }

  lemma {:induction false} ShrHalf(v: nat, n: nat)
    ensures Shr(v, n + 1) == Shr(v, n) / 2
  {
    if n > 0 { ShrHalf(v / 2, n - 1); }
  }

  lemma {:induction false} LowOfSmall(v: nat, n: nat)
    requires v < Pow2(n)
    ensures Low(v, n) == v
  {
    if n > 0 { LowOfSmall(v / 2, n - 1); }
  }

  // ----- bit lists -----

  /** Bit lists and numbers below a power of two are in bijection. */
  lemma {:induction false} LsbOfValue(b: seq<bool>)
    ensures Lsb(Value(b), |b|) == b
  {
    if b != [] {
      LsbOfValue(b[1..]);
      assert Value(b) / 2 == Value(b[1..]);
    }
  }

  lemma {:induction false} ValueOfLsb(v: nat, n: nat)
    ensures Value(Lsb(v, n)) == Low(v, n)
  {
    if n > 0 {
      ValueOfLsb(v / 2, n - 1);
      assert Lsb(v, n)[1..] == Lsb(v / 2, n - 1);
    }
  }

  /** Putting `c` above the `n` bits of `a` appends its bits. */
  lemma {:induction false} LsbAppend(a: nat, n: nat, c: nat, m: nat)
    requires a < Pow2(n)
    ensures Lsb(a + Shl(c, n), n + m) == Lsb(a, n) + Lsb(c, m)
  {
    if n > 0 {
      assert (a + Shl(c, n)) / 2 == a / 2 + Shl(c, n - 1);
      LsbAppend(a / 2, n - 1, c, m);
    }
  }

  /** Shifting right by `k` drops the first `k` bits. */
  lemma {:induction false} LsbDrop(v: nat, n: nat, k: nat)
    requires k <= n
    ensures Lsb(v, n)[k..] == Lsb(Shr(v, k), n - k)
  {
    if k > 0 {
      LsbDrop(v / 2, n - 1, k - 1);
      assert Lsb(v, n)[k..] == Lsb(v / 2, n - 1)[k - 1..];
    }
  }

  /** Masking keeps the first `k` bits. */
  lemma {:induction false} LsbTake(v: nat, n: nat, k: nat)
    requires k <= n
    ensures Lsb(v, n)[..k] == Lsb(v, k)
  {
    if k > 0 {
      LsbTake(v / 2, n - 1, k - 1);
      assert Lsb(v, n)[..k] == [v % 2 == 1] + Lsb(v / 2, n - 1)[..k - 1];
    }
  }

  lemma LsbOfLow(v: nat, n: nat)
    ensures Lsb(Low(v, n), n) == Lsb(v, n)
  {
    ValueOfLsb(v, n);
    LsbOfValue(Lsb(v, n));
  }

  // ----- code words -----

  /** Reading a code word from its other end: the top bit comes first. */
  lemma {:induction false} MsbTop(v: nat, n: nat)
    ensures Msb(v, n + 1) == [Shr(v, n) % 2 == 1] + Msb(v, n)
  {
    if n > 0 { MsbTop(v / 2, n - 1); }
  }

  /** Code words of one length determine the numbers they spell. */
  lemma {:induction false} MsbInjective(a: nat, b: nat, n: nat)
    requires a < Pow2(n) && b < Pow2(n)
    requires Msb(a, n) == Msb(b, n)
    ensures a == b
  {
    if n > 0 {
      assert Msb(a, n)[..n - 1] == Msb(a / 2, n - 1);
      assert Msb(b, n)[..n - 1] == Msb(b / 2, n - 1);
      assert Msb(a, n)[n - 1] == Msb(b, n)[n - 1];
      MsbInjective(a / 2, b / 2, n - 1);
    }
  }

  /** The first `k` bits of a code word spell the number without its low bits. */
  lemma {:induction false} MsbTake(v: nat, n: nat, k: nat)
    requires k <= n
    ensures Msb(v, n)[..k] == Msb(Shr(v, n - k), k)
  {
    if k < n {
      MsbTake(v / 2, n - 1, k);
      assert Msb(v, n)[..k] == Msb(v / 2, n - 1)[..k];
    }
  }
}
