/** Canonical Huffman codes as section 3.2.2 of RFC 1951 assigns them, and the
    arithmetic that makes them prefix-free. A list `ls` gives the code length of
    every symbol; length 0 means that the symbol has no code. */
module Huffman {
  import opened Basics
  import opened Bits

  const MAX_LEN: nat := 15

  predicate Lengths(ls: seq<nat>) {
    forall i :: 0 <= i < |ls| ==> ls[i] <= MAX_LEN
  }

  /** How many symbols have code length `l`. */
  function Count(ls: seq<nat>, l: nat): (n: nat)
    ensures n <= |ls|
  {
    if ls == [] then 0
    else Count(ls[..|ls| - 1], l) + Bit(ls[|ls| - 1] == l)
  }

  /** The counter array of the source never counts length 0. */
  function LengthCount(ls: seq<nat>, l: nat): (n: nat) {
    if l == 0 then 0 else Count(ls, l)
  }

  /** The first code of length `l`. */
  function First(ls: seq<nat>, l: nat): (c: nat) {
    if l == 0 then 0 else 2 * (First(ls, l - 1) + LengthCount(ls, l - 1))
  }

  /** The code of symbol `s`: codes of one length are consecutive in symbol order. */
  function Code(ls: seq<nat>, s: nat): (c: nat)
    requires s < |ls| && ls[s] > 0
  {
    First(ls, ls[s]) + Count(ls[..s], ls[s])
  }

  /** The bits that stand for symbol `s` in the stream. */
  function Word(ls: seq<nat>, s: nat): (w: seq<bool>)
    requires s < |ls| && ls[s] > 0
    ensures |w| == ls[s]
  {
    Msb(Code(ls, s), ls[s])
  }

  predicate Coded(ls: seq<nat>, s: nat) {
    s < |ls| && ls[s] > 0
  }

  /** The part of the code space, in units of 2^-15, that codes of at most `l` bits take. */
  function Kraft(ls: seq<nat>, l: nat): (k: nat)
    requires l <= MAX_LEN
  {
    if ls == [] then 0
    else Kraft(ls[..|ls| - 1], l)
         + (if 0 < ls[|ls| - 1] <= l then Pow2(MAX_LEN - ls[|ls| - 1]) else 0)
  }

  predicate NotOversubscribed(ls: seq<nat>) {
    Kraft(ls, MAX_LEN) <= Pow2(MAX_LEN)
  }

  ghost predicate PrefixFree(ls: seq<nat>) {
    forall s: nat, t: nat {:trigger Word(ls, s), Word(ls, t)} ::
      Coded(ls, s) && Coded(ls, t) && s != t ==> !(Word(ls, s) <= Word(ls, t))
  }

  function MaxLen(ls: seq<nat>): (m: nat)
    ensures forall i :: 0 <= i < |ls| ==> ls[i] <= m
    ensures m == 0 || exists i :: 0 <= i < |ls| && ls[i] == m
  {
    if ls == [] then 0
    else
      var m := MaxLen(ls[..|ls| - 1]);
      assert forall i :: 0 <= i < |ls| - 1 ==> ls[i] == ls[..|ls| - 1][i];
      if ls[|ls| - 1] >= m then ls[|ls| - 1] else m
  }

  /** The last of the first `n` symbols whose word starts `bits`. */
  function Match(ls: seq<nat>, n: nat, bits: seq<bool>): (r: Option<nat>)
    requires n <= |ls|
    ensures r.Some? ==> r.value < n && Coded(ls, r.value) && Word(ls, r.value) <= bits
    ensures r.None? ==> forall s: nat :: s < n && Coded(ls, s) ==> !(Word(ls, s) <= bits)
  {
    if n == 0 then None
    else if ls[n - 1] > 0 && Word(ls, n - 1) <= bits then Some(n - 1)
    else Match(ls, n - 1, bits)
  }

  // ----- counting -----

  lemma {:induction false} CountBefore(ls: seq<nat>, s: nat, l: nat)
    requires s < |ls|
    ensures Count(ls[..s], l) + Bit(ls[s] == l) <= Count(ls, l)
    decreases |ls|
  {
    if s == |ls| - 1 {
    } else {
      var ls' := ls[..|ls| - 1];
      CountBefore(ls', s, l);
      assert ls'[..s] == ls[..s];
    }
  }

  lemma {:induction false} CountMono(ls: seq<nat>, s: nat, t: nat, l: nat)
    requires s < t <= |ls|
    ensures Count(ls[..s], l) + Bit(ls[s] == l) <= Count(ls[..t], l)
  {
    CountBefore(ls[..t], s, l);
    assert ls[..t][..s] == ls[..s];
  }

  /** Some symbol of length `l` has exactly `k` predecessors of its length. */
  lemma {:induction false} NthOfLength(ls: seq<nat>, l: nat, k: nat) returns (s: nat)
    requires k < Count(ls, l)
    ensures s < |ls| && ls[s] == l && Count(ls[..s], l) == k
    decreases |ls|
  {
    var ls' := ls[..|ls| - 1];
    if Count(ls', l) == k {
      s := |ls| - 1;
    } else {
      s := NthOfLength(ls', l, k);
      assert ls'[..s] == ls[..s];
    }
  }

  // ----- the Kraft sum and the first codes -----

  lemma {:induction false} KraftStep(ls: seq<nat>, l: nat)
    requires 0 < l <= MAX_LEN
    ensures Kraft(ls, l) == Kraft(ls, l - 1) + Shl(Count(ls, l), MAX_LEN - l)
  {
    if ls == [] {
      ShlZero(MAX_LEN - l);
    } else {
      KraftStep(ls[..|ls| - 1], l);
      ShlOne(MAX_LEN - l);
      ShlAdd(Count(ls[..|ls| - 1], l), 1, MAX_LEN - l);
    }
  }

  lemma {:induction false} ShlZero(n: nat)
    ensures Shl(0, n) == 0
  {
    if n > 0 { ShlZero(n - 1); }
  }

  lemma {:induction false} KraftMono(ls: seq<nat>, l: nat, m: nat)
    requires l <= m <= MAX_LEN
    ensures Kraft(ls, l) <= Kraft(ls, m)
  {
    hide Kraft, Count;
    if l < m {
      KraftMono(ls, l, m - 1);
      KraftStep(ls, m);
    }
  }

  lemma {:induction false} KraftZero(ls: seq<nat>)
    ensures Kraft(ls, 0) == 0
  {
    if ls != [] { KraftZero(ls[..|ls| - 1]); }
  }

  /** Codes of at most `l` bits end where the Kraft sum says. */
  lemma {:induction false} FirstIsKraft(ls: seq<nat>, l: nat)
    requires l <= MAX_LEN
    ensures Shl(First(ls, l) + LengthCount(ls, l), MAX_LEN - l) == Kraft(ls, l)
  {
    hide Kraft, Count;
    if l == 0 {
      KraftZero(ls);
      ShlZero(MAX_LEN);
    } else {
      FirstIsKraft(ls, l - 1);
      KraftStep(ls, l);
      var e := First(ls, l - 1) + LengthCount(ls, l - 1);
      ShlAdd(2 * e, Count(ls, l), MAX_LEN - l);
      ShlDouble(e, MAX_LEN - l);
    }
  }

  lemma {:induction false} ShlDouble(e: nat, n: nat)
    ensures Shl(2 * e, n) == Shl(e, n + 1)
  {
    if n > 0 { ShlDouble(e, n - 1); }
  }

  lemma FitsAtLength(ls: seq<nat>, l: nat)
    requires l <= MAX_LEN
    ensures First(ls, l) + LengthCount(ls, l) <= Pow2(l) <==> Kraft(ls, l) <= Pow2(MAX_LEN)
  {
    hide *;
    FirstIsKraft(ls, l);
    ShlPow2(l, MAX_LEN - l);
    ShlOrder(First(ls, l) + LengthCount(ls, l), Pow2(l), MAX_LEN - l);
  }

  /** No code exceeds its length exactly when the lengths are not over-subscribed. */
  lemma CodesFit(ls: seq<nat>)
    requires Lengths(ls)
    ensures NotOversubscribed(ls) <==> forall s: nat :: Coded(ls, s) ==> Code(ls, s) < Pow2(ls[s])
  {
    if NotOversubscribed(ls) {
      forall s: nat | Coded(ls, s) ensures Code(ls, s) < Pow2(ls[s]) {
        CodeFits(ls, s);
      }
    } else {
      var s, _ := Overflow(ls);
      assert Coded(ls, s);
    }
  }

  lemma CodeFits(ls: seq<nat>, s: nat)
    requires Lengths(ls) && NotOversubscribed(ls) && Coded(ls, s)
    ensures Code(ls, s) < Pow2(ls[s])
  {
    KraftMono(ls, ls[s], MAX_LEN);
    FitsAtLength(ls, ls[s]);
    CountBefore(ls, s, ls[s]);
  }

  /** When the lengths are over-subscribed, some code is exactly one past its
      length, and a shorter or equal code is zero: the two words clash. */
  lemma Overflow(ls: seq<nat>) returns (s: nat, z: nat)
    requires Lengths(ls) && !NotOversubscribed(ls)
    ensures Coded(ls, s) && Code(ls, s) == Pow2(ls[s])
    ensures Coded(ls, z) && Code(ls, z) == 0 && ls[z] <= ls[s]
  {
    hide Kraft, Count, Pow2, First;
    var l := FirstOverfull(ls, MAX_LEN);
    FirstStep(ls, l);
    FitsAtLength(ls, l);
    FitsAtLength(ls, l - 1);
    s := NthOfLength(ls, l, Pow2(l) - First(ls, l));
    z := LeastCode(ls, l);
  }

  lemma FirstStep(ls: seq<nat>, l: nat)
    requires l > 0
    ensures First(ls, l) == 2 * (First(ls, l - 1) + LengthCount(ls, l - 1)) && Pow2(l) == 2 * Pow2(l - 1)
  {}

  lemma {:induction false} FirstOverfull(ls: seq<nat>, m: nat) returns (l: nat)
    requires m <= MAX_LEN && Kraft(ls, m) > Pow2(MAX_LEN)
    ensures 0 < l <= m && Kraft(ls, l) > Pow2(MAX_LEN) && Kraft(ls, l - 1) <= Pow2(MAX_LEN)
    decreases m
  {
    hide Kraft, Pow2;
    KraftZero(ls);
    if Kraft(ls, m - 1) > Pow2(MAX_LEN) {
      l := FirstOverfull(ls, m - 1);
    } else {
      l := m;
    }
  }

  /** The shortest length in use has a symbol with code zero. */
  lemma {:induction false} LeastCode(ls: seq<nat>, l: nat) returns (z: nat)
    requires First(ls, l) + LengthCount(ls, l) > 0
    ensures Coded(ls, z) && Code(ls, z) == 0 && ls[z] <= l
    decreases l
  {
    if First(ls, l) == 0 {
      z := NthOfLength(ls, l, 0);
    } else {
      z := LeastCode(ls, l - 1);
    }
  }

  // ----- order and prefix-freeness -----

  lemma {:induction false} LaterLengthsStartHigher(ls: seq<nat>, l: nat, m: nat)
    requires l < m
    ensures Shl(First(ls, l) + LengthCount(ls, l), m - l) <= First(ls, m)
    decreases m
  {
    if m > l + 1 { LaterLengthsStartHigher(ls, l, m - 1); }
  }

  /** Symbols in order of length, then of index, get disjoint ascending ranges of the code space. */
  lemma CodesAscend(ls: seq<nat>, s: nat, t: nat)
    requires Coded(ls, s) && Coded(ls, t)
    requires ls[s] < ls[t] || (ls[s] == ls[t] && s < t)
    ensures Shl(Code(ls, s) + 1, ls[t] - ls[s]) <= Code(ls, t)
  {
    if ls[s] == ls[t] {
      CountMono(ls, s, t, ls[s]);
    } else {
      CountBefore(ls, s, ls[s]);
      LaterLengthsStartHigher(ls, ls[s], ls[t]);
      ShlOrder(Code(ls, s) + 1, First(ls, ls[s]) + LengthCount(ls, ls[s]), ls[t] - ls[s]);
    }
  }

  /** A word that starts another spells the other's code without its low bits. */
  lemma PrefixCode(c: nat, l: nat, d: nat, m: nat)
    requires l <= m && c < Pow2(l) && d < Pow2(m)
    requires Msb(c, l) <= Msb(d, m)
    ensures Shl(c, m - l) <= d < Shl(c + 1, m - l)
  {
    hide Msb, Shl, Shr, Pow2, Low;
    MsbTake(d, m, l);
    ShrBound(d, m, m - l);
    MsbInjective(c, Shr(d, m - l), l);
    SplitAt(d, m - l);
    ShlOrder(c, c + 1, m - l);
  }

  lemma NoPrefix(ls: seq<nat>, s: nat, t: nat)
    requires Lengths(ls) && NotOversubscribed(ls)
    requires Coded(ls, s) && Coded(ls, t) && s != t
    ensures !(Word(ls, s) <= Word(ls, t))
  {
    hide Code, NotOversubscribed, Pow2, Msb;
    if Word(ls, s) <= Word(ls, t) {
      CodeFits(ls, s);
      CodeFits(ls, t);
      PrefixCode(Code(ls, s), ls[s], Code(ls, t), ls[t]);
      if ls[s] == ls[t] && t < s {
        CodesAscend(ls, t, s);
      } else {
        CodesAscend(ls, s, t);
      }
    }
  }

  lemma {:induction false} MsbZero(v: nat, n: nat)
    requires v == 0 || v == Pow2(n)
    ensures forall i :: 0 <= i < n ==> !Msb(v, n)[i]
  {
    if n > 0 { MsbZero(v / 2, n - 1); }
  }

  /** The canonical words are prefix-free exactly when the lengths are not over-subscribed. */
  lemma PrefixFreeIffFits(ls: seq<nat>)
    requires Lengths(ls)
    ensures PrefixFree(ls) <==> NotOversubscribed(ls)
  {
    if NotOversubscribed(ls) {
      forall s: nat, t: nat | Coded(ls, s) && Coded(ls, t) && s != t
        ensures !(Word(ls, s) <= Word(ls, t))
      {
        NoPrefix(ls, s, t);
      }
    } else {
      var s, z := Overflow(ls);
      MsbZero(Code(ls, s), ls[s]);
      MsbZero(Code(ls, z), ls[z]);
      assert Word(ls, z) <= Word(ls, s);
    }
  }

  lemma PrefixesNest(a: seq<bool>, b: seq<bool>, bits: seq<bool>)
    requires a <= bits && b <= bits
    ensures a <= b || b <= a
  {
    if |a| <= |b| {
      assert a == b[..|a|];
    } else {
      assert b == a[..|b|];
    }
  }

  /** A word in front of any bits is found, and nothing else is. */
  lemma MatchIsWord(ls: seq<nat>, s: nat, bits: seq<bool>)
    requires Lengths(ls) && NotOversubscribed(ls) && Coded(ls, s)
    ensures Match(ls, |ls|, bits) == Some(s) <==> Word(ls, s) <= bits
  {
    var r := Match(ls, |ls|, bits);
    if r.Some? && r.value != s {
      if Word(ls, s) <= bits {
        PrefixesNest(Word(ls, s), Word(ls, r.value), bits);
      }
      NoPrefix(ls, s, r.value);
      NoPrefix(ls, r.value, s);
    }
  }
}
