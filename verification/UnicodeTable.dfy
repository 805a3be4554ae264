/** The canonical decomposition table of the kernel's text support: each row is
    a precomposed character, its base and its combining mark. The facts proved
    here are those that normalisation rests on. */
module UnicodeTable {
  type Row = (nat, nat, nat)

  /** U+00C0 to U+00CF */
  const ROWS_C0: seq<Row> := [
    (0x00C0, 0x0041, 0x0300), (0x00C1, 0x0041, 0x0301), (0x00C2, 0x0041, 0x0302), (0x00C3, 0x0041, 0x0303),
    (0x00C4, 0x0041, 0x0308), (0x00C5, 0x0041, 0x030A), (0x00C7, 0x0043, 0x0327), (0x00C8, 0x0045, 0x0300),
    (0x00C9, 0x0045, 0x0301), (0x00CA, 0x0045, 0x0302), (0x00CB, 0x0045, 0x0308), (0x00CC, 0x0049, 0x0300),
    (0x00CD, 0x0049, 0x0301), (0x00CE, 0x0049, 0x0302), (0x00CF, 0x0049, 0x0308)]

  /** U+00D1 to U+00DD */
  const ROWS_D0: seq<Row> := [
    (0x00D1, 0x004E, 0x0303), (0x00D2, 0x004F, 0x0300), (0x00D3, 0x004F, 0x0301), (0x00D4, 0x004F, 0x0302),
    (0x00D5, 0x004F, 0x0303), (0x00D6, 0x004F, 0x0308), (0x00D9, 0x0055, 0x0300), (0x00DA, 0x0055, 0x0301),
    (0x00DB, 0x0055, 0x0302), (0x00DC, 0x0055, 0x0308), (0x00DD, 0x0059, 0x0301)]

  /** U+00E0 to U+00EF */
  const ROWS_E0: seq<Row> := [
    (0x00E0, 0x0061, 0x0300), (0x00E1, 0x0061, 0x0301), (0x00E2, 0x0061, 0x0302), (0x00E3, 0x0061, 0x0303),
    (0x00E4, 0x0061, 0x0308), (0x00E5, 0x0061, 0x030A), (0x00E7, 0x0063, 0x0327), (0x00E8, 0x0065, 0x0300),
    (0x00E9, 0x0065, 0x0301), (0x00EA, 0x0065, 0x0302), (0x00EB, 0x0065, 0x0308), (0x00EC, 0x0069, 0x0300),
    (0x00ED, 0x0069, 0x0301), (0x00EE, 0x0069, 0x0302), (0x00EF, 0x0069, 0x0308)]

  /** U+00F1 to U+00FF */
  const ROWS_F0: seq<Row> := [
    (0x00F1, 0x006E, 0x0303), (0x00F2, 0x006F, 0x0300), (0x00F3, 0x006F, 0x0301), (0x00F4, 0x006F, 0x0302),
    (0x00F5, 0x006F, 0x0303), (0x00F6, 0x006F, 0x0308), (0x00F9, 0x0075, 0x0300), (0x00FA, 0x0075, 0x0301),
    (0x00FB, 0x0075, 0x0302), (0x00FC, 0x0075, 0x0308), (0x00FD, 0x0079, 0x0301), (0x00FF, 0x0079, 0x0308)]

  /** U+0100 to U+0148 */
  const ROWS_100: seq<Row> := [
    (0x0100, 0x0041, 0x0304), (0x0101, 0x0061, 0x0304), (0x0102, 0x0041, 0x0306), (0x0103, 0x0061, 0x0306),
    (0x0106, 0x0043, 0x0301), (0x0107, 0x0063, 0x0301), (0x010C, 0x0043, 0x030C), (0x010D, 0x0063, 0x030C),
    (0x010E, 0x0044, 0x030C), (0x010F, 0x0064, 0x030C), (0x011A, 0x0045, 0x030C), (0x011B, 0x0065, 0x030C),
    (0x0139, 0x004C, 0x0301), (0x013A, 0x006C, 0x0301), (0x013D, 0x004C, 0x030C), (0x013E, 0x006C, 0x030C),
    (0x0143, 0x004E, 0x0301), (0x0144, 0x006E, 0x0301), (0x0147, 0x004E, 0x030C), (0x0148, 0x006E, 0x030C)]

  /** U+0154 to U+017E */
  const ROWS_154: seq<Row> := [
    (0x0154, 0x0052, 0x0301), (0x0155, 0x0072, 0x0301), (0x0158, 0x0052, 0x030C), (0x0159, 0x0072, 0x030C),
    (0x015A, 0x0053, 0x0301), (0x015B, 0x0073, 0x0301), (0x015E, 0x0053, 0x0327), (0x015F, 0x0073, 0x0327),
    (0x0160, 0x0053, 0x030C), (0x0161, 0x0073, 0x030C), (0x0164, 0x0054, 0x030C), (0x0165, 0x0074, 0x030C),
    (0x016E, 0x0055, 0x030A), (0x016F, 0x0075, 0x030A), (0x0170, 0x0055, 0x030B), (0x0171, 0x0075, 0x030B),
    (0x0179, 0x005A, 0x0301), (0x017A, 0x007A, 0x0301), (0x017D, 0x005A, 0x030C), (0x017E, 0x007A, 0x030C)]

  /** U+0386 to U+03CE */
  const ROWS_GREEK: seq<Row> := [
    (0x0386, 0x0391, 0x0301), (0x0388, 0x0395, 0x0301), (0x0389, 0x0397, 0x0301), (0x038A, 0x0399, 0x0301),
    (0x038C, 0x039F, 0x0301), (0x038E, 0x03A5, 0x0301), (0x038F, 0x03A9, 0x0301), (0x03AC, 0x03B1, 0x0301),
    (0x03AD, 0x03B5, 0x0301), (0x03AE, 0x03B7, 0x0301), (0x03AF, 0x03B9, 0x0301), (0x03CC, 0x03BF, 0x0301),
    (0x03CD, 0x03C5, 0x0301), (0x03CE, 0x03C9, 0x0301)]

  const DECOMP: seq<Row> := ROWS_C0 + ROWS_D0 + ROWS_E0 + ROWS_F0 + ROWS_100 + ROWS_154 + ROWS_GREEK

  /** Where precomposed characters, bases and marks lie; the three do not meet. */
  predicate KeyRange(v: nat) {
    0xC0 <= v <= 0x17E || 0x386 <= v <= 0x38F || 0x3AC <= v <= 0x3AF || 0x3CC <= v <= 0x3CE
  }

  predicate BaseRange(v: nat) {
    0x41 <= v <= 0x7A || 0x391 <= v <= 0x3A9 || 0x3B1 <= v <= 0x3C9
  }

  predicate MarkRange(v: nat) { 0x300 <= v <= 0x327 }

  predicate RowsInRange(t: seq<Row>) {
    forall i :: 0 <= i < |t| ==> KeyRange(t[i].0) && BaseRange(t[i].1) && MarkRange(t[i].2)
  }

  function Key(r: Row): (k: nat) { r.0 }

  /** A number that grows down the table and depends only on base and mark: the
      block the pair belongs to, the letter, the mark and the letter's case. */
  function PairOrder(r: Row): (n: nat) {
    var (_, b, m) := r;
    if b >= 0x391 then 0x300_0000 + b
    else if InExtended(b, m) then
      0x200_0000 + (if b >= 0x61 then b - 0x20 else b) * 0x1000 + 2 * MarkOrder(m) + (if b >= 0x61 then 1 else 0)
    else b * 0x1000 + m
  }

  function MarkOrder(m: nat): (n: nat) { if m == 0x327 then 0x305 else m }

  /** The pairs of the Latin Extended-A block. */
  predicate InExtended(b: nat, m: nat) {
    || m == 0x304 || m == 0x306 || m == 0x30B || m == 0x30C
    || (m == 0x301 && (b == 0x43 || b == 0x63 || b == 0x4C || b == 0x6C || b == 0x4E || b == 0x6E
                       || b == 0x52 || b == 0x72 || b == 0x53 || b == 0x73 || b == 0x5A || b == 0x7A))
    || (m == 0x327 && (b == 0x53 || b == 0x73)) || (m == 0x30A && (b == 0x55 || b == 0x75))
  }

  ghost predicate Ascending(f: Row -> nat, t: seq<Row>) {
    forall i :: 0 <= i < |t| - 1 ==> f(t[i]) < f(t[i + 1])
  }

  ghost predicate StrictlySorted(f: Row -> nat, t: seq<Row>) {
    forall i, j :: 0 <= i < j < |t| ==> f(t[i]) < f(t[j])
  }

  lemma {:induction false} AscendingIsSorted(f: Row -> nat, t: seq<Row>)
    requires Ascending(f, t)
    ensures StrictlySorted(f, t)
  {
    if |t| > 1 {
      var n := |t| - 1;
      AscendingIsSorted(f, t[..n]);
      assert forall i :: 0 <= i < n ==> t[i] == t[..n][i];
      assert f(t[n - 1]) < f(t[n - 1 + 1]);
    }
  }

  lemma AscendingConcat(f: Row -> nat, a: seq<Row>, b: seq<Row>)
    requires Ascending(f, a) && Ascending(f, b)
    requires a != [] && b != [] && f(a[|a| - 1]) < f(b[0])
    ensures Ascending(f, a + b)
  {
    forall i | 0 <= i < |a + b| - 1 ensures f((a + b)[i]) < f((a + b)[i + 1]) {
      if i < |a| - 1 {
        assert f(a[i]) < f(a[i + 1]);
      } else if i >= |a| {
        assert f(b[i - |a|]) < f(b[i - |a| + 1]);
      }
    }
  }

  /** The order of a plain pair, of an extended one and of a Greek one. */
  predicate OrderOk(r: Row, s: Row) {
    if r.1 >= 0x391 then s.1 > r.1
    else InExtended(r.1, r.2) == InExtended(s.1, s.2) && s.1 < 0x391 &&
         (if InExtended(r.1, r.2) then PairOrder(r) < PairOrder(s) else r.1 < s.1 || (r.1 == s.1 && r.2 < s.2 < 0x1000))
  }

  lemma PairsOf(t: seq<Row>)
    requires forall i :: 0 <= i < |t| - 1 ==> OrderOk(t[i], t[i + 1])
    requires RowsInRange(t)
    ensures Ascending(PairOrder, t)
  {
    forall i | 0 <= i < |t| - 1 ensures PairOrder(t[i]) < PairOrder(t[i + 1]) {
      assert OrderOk(t[i], t[i + 1]);
      assert MarkRange(t[i].2) && MarkRange(t[i + 1].2);
    }
  }

  lemma RowsConcat(a: seq<Row>, b: seq<Row>)
    requires RowsInRange(a) && RowsInRange(b)
    ensures RowsInRange(a + b)
  {}

  lemma BlockC0Rows()
    ensures Ascending(Key, ROWS_C0) && RowsInRange(ROWS_C0)
  {}

  lemma BlockC0Pairs()
    ensures Ascending(PairOrder, ROWS_C0)
  {
    BlockC0Rows();
    PairsOf(ROWS_C0);
  }

  lemma BlockD0Rows()
    ensures Ascending(Key, ROWS_D0) && RowsInRange(ROWS_D0)
  {}

  lemma BlockD0Pairs()
    ensures Ascending(PairOrder, ROWS_D0)
  {
    BlockD0Rows();
    PairsOf(ROWS_D0);
  }

  lemma BlockE0Rows()
    ensures Ascending(Key, ROWS_E0) && RowsInRange(ROWS_E0)
  {}

  lemma BlockE0Pairs()
    ensures Ascending(PairOrder, ROWS_E0)
  {
    BlockE0Rows();
    PairsOf(ROWS_E0);
  }

  lemma BlockF0Rows()
    ensures Ascending(Key, ROWS_F0) && RowsInRange(ROWS_F0)
  {}

  lemma BlockF0Pairs()
    ensures Ascending(PairOrder, ROWS_F0)
  {
    BlockF0Rows();
    PairsOf(ROWS_F0);
  }

  lemma Block100Rows()
    ensures Ascending(Key, ROWS_100) && RowsInRange(ROWS_100)
  {
    Block100Keys();
    Block100Range();
  }

  lemma Block100Keys()
    ensures Ascending(Key, ROWS_100)
  {}

  lemma Block100Range()
    ensures RowsInRange(ROWS_100)
  {}

  lemma Block100Pairs()
    ensures Ascending(PairOrder, ROWS_100)
  {
    Block100Rows();
    PairsOf(ROWS_100);
  }

  lemma Block154Rows()
    ensures Ascending(Key, ROWS_154) && RowsInRange(ROWS_154)
  {
    Block154Keys();
    Block154Range();
  }

  lemma Block154Keys()
    ensures Ascending(Key, ROWS_154)
  {}

  lemma Block154Range()
    ensures RowsInRange(ROWS_154)
  {}

  lemma Block154Pairs()
    ensures Ascending(PairOrder, ROWS_154)
  {
    Block154Rows();
    PairsOf(ROWS_154);
  }

  lemma BlockGreekRows()
    ensures Ascending(Key, ROWS_GREEK) && RowsInRange(ROWS_GREEK)
  {}

  lemma BlockGreekPairs()
    ensures Ascending(PairOrder, ROWS_GREEK)
  {
    BlockGreekRows();
    PairsOf(ROWS_GREEK);
  }

  lemma AllAscending(f: Row -> nat)
    requires Ascending(f, ROWS_C0)
    requires Ascending(f, ROWS_D0)
    requires Ascending(f, ROWS_E0)
    requires Ascending(f, ROWS_F0)
    requires Ascending(f, ROWS_100)
    requires Ascending(f, ROWS_154)
    requires Ascending(f, ROWS_GREEK)
    requires f(ROWS_C0[14]) < f(ROWS_D0[0])
    requires f(ROWS_D0[10]) < f(ROWS_E0[0])
    requires f(ROWS_E0[14]) < f(ROWS_F0[0])
    requires f(ROWS_F0[11]) < f(ROWS_100[0])
    requires f(ROWS_100[19]) < f(ROWS_154[0])
    requires f(ROWS_154[19]) < f(ROWS_GREEK[0])
    ensures StrictlySorted(f, DECOMP)
  {
    hide Ascending;
    AscendingConcat(f, ROWS_C0, ROWS_D0);
    AscendingConcat(f, ROWS_C0 + ROWS_D0, ROWS_E0);
    AscendingConcat(f, ROWS_C0 + ROWS_D0 + ROWS_E0, ROWS_F0);
    AscendingConcat(f, ROWS_C0 + ROWS_D0 + ROWS_E0 + ROWS_F0, ROWS_100);
    AscendingConcat(f, ROWS_C0 + ROWS_D0 + ROWS_E0 + ROWS_F0 + ROWS_100, ROWS_154);
    AscendingConcat(f, ROWS_C0 + ROWS_D0 + ROWS_E0 + ROWS_F0 + ROWS_100 + ROWS_154, ROWS_GREEK);
    AscendingIsSorted(f, DECOMP);
  }

  /** The table is strictly sorted, as binary search needs, and its columns lie
      in ranges that do not meet. */
  lemma TableIsSorted()
    ensures StrictlySorted(Key, DECOMP) && RowsInRange(DECOMP)
  {
    hide Ascending, RowsInRange, StrictlySorted;
    BlockC0Rows();
    BlockD0Rows();
    BlockE0Rows();
    BlockF0Rows();
    Block100Rows();
    Block154Rows();
    BlockGreekRows();
    AllAscending(Key);
    RowsConcat(ROWS_C0, ROWS_D0);
    RowsConcat(ROWS_C0 + ROWS_D0, ROWS_E0);
    RowsConcat(ROWS_C0 + ROWS_D0 + ROWS_E0, ROWS_F0);
    RowsConcat(ROWS_C0 + ROWS_D0 + ROWS_E0 + ROWS_F0, ROWS_100);
    RowsConcat(ROWS_C0 + ROWS_D0 + ROWS_E0 + ROWS_F0 + ROWS_100, ROWS_154);
    RowsConcat(ROWS_C0 + ROWS_D0 + ROWS_E0 + ROWS_F0 + ROWS_100 + ROWS_154, ROWS_GREEK);
  }

  /** No two rows have the same base and mark. */
  lemma PairsAreDistinct(i: nat, j: nat)
    requires i < |DECOMP| && j < |DECOMP|
    requires DECOMP[i].1 == DECOMP[j].1 && DECOMP[i].2 == DECOMP[j].2
    ensures i == j
  {
    assert StrictlySorted(PairOrder, DECOMP) by { PairsAscend(); }
    SameOrder(PairOrder, DECOMP, i, j);
  }

  lemma SameOrder(f: Row -> nat, t: seq<Row>, i: nat, j: nat)
    requires StrictlySorted(f, t) && i < |t| && j < |t| && f(t[i]) == f(t[j])
    ensures i == j
  {}

  lemma PairsAscend()
    ensures StrictlySorted(PairOrder, DECOMP)
  {
    hide Ascending, StrictlySorted;
    BlockC0Pairs();
    BlockD0Pairs();
    BlockE0Pairs();
    BlockF0Pairs();
    Block100Pairs();
    Block154Pairs();
    BlockGreekPairs();
    AllAscending(PairOrder);
  }
}
