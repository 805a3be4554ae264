/** The calculator: a display, an accumulator and a pending operator, driven by sixteen
    keys, over 64-bit integers that saturate. */
module Calculator {
  import opened Basics

  const MIN: int := -0x8000_0000_0000_0000
  const MAX: int := 0x7FFF_FFFF_FFFF_FFFF

  type i64 = x: int | MIN <= x <= MAX

  function Clamp(x: int): (r: i64) { if x < MIN then MIN else if x > MAX then MAX else x }

  // ----- numbers as text -----

  predicate IsDigit(c: char) { '0' <= c <= '9' }

  predicate AllDigits(t: string) { forall i :: 0 <= i < |t| ==> IsDigit(t[i]) }

  function DigitOf(c: char): (d: nat)
    requires IsDigit(c)
    ensures d < 10
  {
    c as int - '0' as int
  }

  function DigitChar(d: nat): (c: char)
    requires d < 10
    ensures IsDigit(c) && DigitOf(c) == d
  {
    '0' + d as char
  }

  function Digits(n: nat): (t: string)
    ensures t != "" && AllDigits(t)
  {
    if n < 10 then [DigitChar(n)] else Digits(n / 10) + [DigitChar(n % 10)]
  }

  /** A number as the display shows it. */
  function Show(x: int): (t: string) { if x < 0 then "-" + Digits(-x) else Digits(x) }

  /** The number a digit string stands for, however long. */
  function Value(t: string): (n: nat)
    requires AllDigits(t)
  {
    if t == "" then 0 else Value(t[..|t| - 1]) * 10 + DigitOf(t[|t| - 1])
  }

  /** What the calculator reads: saturating, skipping everything but digits. */
  function Magnitude(t: string): (n: i64)
    ensures n >= 0
  {
    if t == "" then 0
    else
      var n, c := Magnitude(t[..|t| - 1]), t[|t| - 1];
      if IsDigit(c) then Clamp(Clamp(n as int * 10) as int + DigitOf(c)) else n
  }

  function Parse(t: string): (x: i64) {
    if t != "" && t[0] == '-' then -Magnitude(t[1..]) else Magnitude(t)
  }

  lemma {:induction false} ValueOfDigits(n: nat)
    ensures Value(Digits(n)) == n
    decreases n
  {
    if n < 10 {
      assert [DigitChar(n)][..0] == "";
    } else {
      ValueOfDigits(n / 10);
      var t := Digits(n / 10) + [DigitChar(n % 10)];
      assert t[..|t| - 1] == Digits(n / 10);
    }
  }

  lemma {:induction false} MagnitudeOfDigits(t: string)
    requires AllDigits(t)
    ensures Magnitude(t) == Clamp(Value(t))
    decreases |t|
  {
    if t != "" {
      MagnitudeOfDigits(t[..|t| - 1]);
    }
  }

  /** Reading what is shown gives the number back, except that the least number, whose
      magnitude does not fit, comes back one greater. */
  lemma ParseOfShow(x: i64)
    ensures Parse(Show(x)) == if x == MIN then MIN + 1 else x
  {
    var n: nat := Abs(x);
    ValueOfDigits(n);
    MagnitudeOfDigits(Digits(n));
    if x < 0 {
      assert Show(x)[1..] == Digits(n);
    } else {
      assert Digits(n)[0] != '-';
    }
  }

  lemma ParseOfDigits(t: string)
    requires AllDigits(t)
    ensures Parse(t) == Clamp(Value(t)) >= 0
  {
    assert t != "" ==> IsDigit(t[0]);
    MagnitudeOfDigits(t);
  }

  // ----- arithmetic -----

  /** Division that rounds towards zero. */
  function Quotient(a: int, b: int): (q: int)
    requires b != 0
  {
    var m: int := Div(Abs(a), Abs(b));
    if (a < 0) == (b < 0) then m else -m
  }

  function Abs(x: int): (r: nat) { if x < 0 then -x else x }

  function Div(a: nat, b: nat): (q: nat)
    requires b > 0
    ensures q <= a && (b >= 2 ==> q + q <= a)
  {
    Half(a, b);
    a / b
  }

  lemma Half(a: nat, b: nat)
    requires b > 0
    ensures a / b <= a && (b >= 2 ==> a / b + a / b <= a)
  {
    var q := a / b;
    assert a == b * q + a % b;
    Grows(1, b, q);
    if b >= 2 { Grows(2, b, q); }
  }

  lemma Grows(a: nat, b: nat, q: int)
    requires a <= b && q >= 0
    ensures a * q <= b * q
  {}

  predicate IsOperator(c: char) { c == '+' || c == '-' || c == '*' || c == '/' }

  /** One operation, saturating; dividing by zero gives zero. The one quotient that does
      not fit is not asked for. */
  function Apply(op: char, a: i64, b: i64): (r: i64)
    requires IsOperator(op) && !(op == '/' && a == MIN && b == -1)
  {
    if op == '+' then Clamp(a as int + b as int)
    else if op == '-' then Clamp(a as int - b as int)
    else if op == '*' then Clamp(a as int * b as int)
    else if b != 0 then Quotient(a, b) else 0
  }

  /** What division means: the remainder is smaller than the divisor and has the sign of the
      dividend, so the quotient is rounded towards zero. */
  lemma QuotientRoundsToZero(a: int, b: int)
    requires b != 0
    ensures var r := a - b * Quotient(a, b); Abs(r) < Abs(b) && (a >= 0 ==> r >= 0) && (a <= 0 ==> r <= 0)
  {
    var m: nat, n: nat := Abs(a), Abs(b);
    assert m == n * (m / n) + m % n;
    var q := Quotient(a, b);
    assert b * q == if a < 0 then -(n * (m / n)) else n * (m / n) by { Signs(a, b, m / n); }
  }

  lemma Signs(a: int, b: int, m: int)
    requires b != 0 && m >= 0
    ensures b * (if (a < 0) == (b < 0) then m else -m) == if a < 0 then -(Abs(b) * m) else Abs(b) * m
  {}

  /** There is no other such quotient. */
  lemma QuotientIsUnique(a: int, b: int, q: int)
    requires b != 0
    requires var r := a - b * q; Abs(r) < Abs(b) && (a >= 0 ==> r >= 0) && (a <= 0 ==> r <= 0)
    ensures q == Quotient(a, b)
  {
    QuotientRoundsToZero(a, b);
    var p := Quotient(a, b);
    assert b * (p - q) == b * p - b * q;
    if p != q { NotSmall(b, p - q); }
  }

  lemma NotSmall(b: int, d: int)
    requires b != 0 && d != 0
    ensures Abs(b * d) >= Abs(b)
  {
    if d > 0 {
      assert b * d == b + b * (d - 1);
      if b > 0 { Grows(1, d, b); } else { Grows(1, d, -b); }
    } else {
      assert b * d == -(b * -d);
      if b > 0 { Grows(1, -d, b); } else { Grows(1, -d, -b); }
    }
  }

  /** What each key computes: the exact result where that fits, else the nearer bound; a
      quotient is rounded towards zero, and is zero where the divisor is. */
  lemma ApplyMeans(a: i64, b: i64)
    ensures Apply('+', a, b) == if a + b < MIN then MIN else if a + b > MAX then MAX else a + b
    ensures Apply('-', a, b) == if a - b < MIN then MIN else if a - b > MAX then MAX else a - b
    ensures Apply('*', a, b) == if a * b < MIN then MIN else if a * b > MAX then MAX else a * b
    ensures b == 0 ==> Apply('/', a, b) == 0
    ensures b != 0 && !(a == MIN && b == -1) ==>
      var r := a - b * Apply('/', a, b);
      Abs(r) < Abs(b) && (a >= 0 ==> r >= 0) && (a <= 0 ==> r <= 0)
    ensures MIN == -0x8000_0000_0000_0000 && MAX == 0x7FFF_FFFF_FFFF_FFFF
  {
    if b != 0 { QuotientRoundsToZero(a, b); }
  }

  // ----- the machine -----

  datatype State = State(display: string, acc: i64, pending: Option<char>, newInput: bool)

  /** What every key press keeps: while a number is being typed the display is digits, and
      the display reads -1 only if the accumulator is -1. */
  predicate Sound(s: State) {
    && (s.pending.Some? ==> IsOperator(s.pending.value))
    && (!s.newInput ==> AllDigits(s.display))
    && (Parse(s.display) == -1 ==> s.acc == -1)
  }

  /** The division that overflows is never asked for. */
  lemma NeverOverflows(s: State)
    requires Sound(s)
    ensures !(s.pending == Some('/') && s.acc == MIN && Parse(s.display) == -1)
  {}

  function Start(): (s: State)
    ensures Sound(s)
  {
    ParseOfDigits("0");
    State("0", 0, None, true)
  }

  function Evaluated(s: State): (r: State)
    requires Sound(s)
  {
    var current := Parse(s.display);
    match s.pending
    case Some(op) => var x := Apply(op, s.acc, current); s.(acc := x, display := Show(x))
    case None => s.(acc := current)
  }

  function Press(s: State, key: char): (r: State)
    requires Sound(s)
  {
    if IsDigit(key) then
      if s.newInput then s.(display := [key], newInput := false)
      else if |s.display| < 15 then s.(display := if s.display == "0" then [key] else s.display + [key])
      else s
    else if IsOperator(key) then Evaluated(s).(pending := Some(key), newInput := true)
    else if key == '=' then Evaluated(s).(pending := None, newInput := true)
    else if key == 'C' then Start()
    else s
  }

  lemma PressKeepsSound(s: State, key: char)
    requires Sound(s)
    ensures Sound(Press(s, key))
  {
    hide Show, Parse, Apply;
    if IsDigit(key) {
      ParseOfDigits([key]);
      if !s.newInput {
        ParseOfDigits(s.display);
        ParseOfDigits(s.display + [key]);
      }
    } else if IsOperator(key) || key == '=' {
      EvaluatedKeepsSound(s);
    }
  }

  lemma EvaluatedKeepsSound(s: State)
    requires Sound(s)
    ensures var r := Evaluated(s); Parse(r.display) == -1 ==> r.acc == -1
  {
    hide Show, Parse, Apply;
    if s.pending.Some? {
      ParseOfShow(Evaluated(s).acc);
    }
  }

  function Run(s: State, keys: string): (r: State)
    requires Sound(s)
    ensures Sound(r)
    decreases |keys|
  {
    if keys == "" then s
    else
      PressKeepsSound(s, keys[0]);
      Run(Press(s, keys[0]), keys[1..])
  }

  /** Whatever keys are pressed, in whatever order, the least integer is never divided by
      minus one. */
  lemma NoRunOverflows(keys: string)
    ensures var s := Run(Start(), keys); !(s.pending == Some('/') && s.acc == MIN && Parse(s.display) == -1)
  {
    NeverOverflows(Run(Start(), keys));
  }

  lemma {:induction false} RunJoin(s: State, a: string, b: string)
    requires Sound(s)
    ensures Run(s, a + b) == Run(Run(s, a), b)
    decreases |a|
  {
    hide Press, Sound;
    if a == "" {
      assert a + b == b;
    } else {
      assert (a + b)[1..] == a[1..] + b;
      PressKeepsSound(s, a[0]);
      RunJoin(Press(s, a[0]), a[1..], b);
    }
  }

  // ----- calculations -----

  /** Digits without leading zeros. */
  function Stripped(t: string): (u: string)
    ensures |u| <= |t| && (u != "" ==> u[0] != '0')
  {
    if t != "" && t[0] == '0' then Stripped(t[1..]) else t
  }

  /** What the display keeps of the digits typed: no leading zeros, and the first fifteen. */
  function Kept(t: string): (u: string)
    requires t != ""
  {
    var u := Stripped(t);
    if u == "" then "0" else if |u| > 15 then u[..15] else u
  }

  lemma {:induction false} StrippedMore(t: string, c: char)
    ensures Stripped(t + [c]) == if Stripped(t) == "" && c == '0' then "" else Stripped(t) + [c]
    decreases |t|
  {
    if t == "" {
      assert t + [c] == [c] && [c][1..] == "";
    } else {
      assert (t + [c])[1..] == t[1..] + [c];
      if t[0] == '0' { StrippedMore(t[1..], c); }
    }
  }

  /** One more digit. */
  lemma KeptMore(t: string, c: char)
    requires t != ""
    ensures Kept(t + [c]) == if |Kept(t)| >= 15 then Kept(t) else if Kept(t) == "0" then [c] else Kept(t) + [c]
  {
    StrippedMore(t, c);
    var u := Stripped(t);
    if |u| >= 15 { assert (u + [c])[..15] == u[..15]; }
    if u == "" && c == '0' { assert Kept(t + [c]) == "0"; }
  }

  lemma {:induction false} KeptDigits(t: string)
    requires t != "" && AllDigits(t)
    ensures AllDigits(Kept(t)) && 1 <= |Kept(t)| <= 15 && (|Kept(t)| > 1 ==> Kept(t)[0] != '0')
    decreases |t|
  {
    if |t| == 1 {
      assert t[1..] == "";
    } else {
      var u, c := t[..|t| - 1], t[|t| - 1];
      assert t == u + [c];
      KeptDigits(u);
      KeptMore(u, c);
    }
  }

  /** Whatever digits are typed, the display shows what is kept of them. */
  lemma {:induction false} TypingDigits(s: State, t: string)
    requires Sound(s) && s.newInput && t != "" && AllDigits(t)
    ensures Run(s, t) == s.(display := Kept(t), newInput := false)
    decreases |t|
  {
    hide Sound, Kept;
    if |t| == 1 {
      assert t[1..] == "" && Kept(t) == t by { OneKept(t); }
    } else {
      var u, c := t[..|t| - 1], t[|t| - 1];
      assert t == u + [c] && AllDigits(u);
      TypingDigits(s, u);
      RunJoin(s, u, [c]);
      assert [c][1..] == "";
      KeptMore(u, c);
    }
  }

  lemma OneKept(t: string)
    requires |t| == 1
    ensures Kept(t) == t
  {
    assert t[1..] == "";
  }

  /** Digits without a leading zero are what their number is shown as. */
  lemma {:induction false} DigitsOfValue(t: string)
    requires AllDigits(t) && t != "" && (|t| > 1 ==> t[0] != '0')
    ensures Digits(Value(t)) == t && (|t| > 1 ==> Value(t) >= 10)
    decreases |t|
  {
    var u, c := t[..|t| - 1], t[|t| - 1];
    assert t == u + [c];
    if u == "" {
      assert Value(t) == DigitOf(c);
    } else {
      DigitsOfValue(u);
      var n := Value(u);
      if |u| == 1 { assert u[..0] == "" && n >= 1; }
      assert Value(t) == n * 10 + DigitOf(c);
      assert Value(t) / 10 == n && Value(t) % 10 == DigitOf(c);
    }
  }

  function Pow10(n: nat): (p: nat)
    ensures p >= 1
  {
    if n == 0 then 1 else 10 * Pow10(n - 1)
  }

  lemma {:induction false} Bounded(t: string)
    requires AllDigits(t)
    ensures Value(t) < Pow10(|t|)
    ensures |t| <= 15 ==> Pow10(|t|) <= 1_000_000_000_000_000
    decreases |t|
  {
    if t != "" {
      Bounded(t[..|t| - 1]);
    }
    Powers(|t|);
  }

  lemma {:induction false} Powers(n: nat)
    ensures n <= 15 ==> Pow10(n) <= 1_000_000_000_000_000
  {
    if n <= 15 {
      PowerUp(n, 15);
      assert Pow10(15) == 1_000_000_000_000_000 by {
        assert Pow10(3) == 1000;
        assert Pow10(6) == 1_000_000;
        assert Pow10(9) == 1_000_000_000;
        assert Pow10(12) == 1_000_000_000_000;
      }
    }
  }

  lemma {:induction false} PowerUp(m: nat, n: nat)
    requires m <= n
    ensures Pow10(m) <= Pow10(n)
    decreases n - m
  {
    if m < n { PowerUp(m, n - 1); }
  }

  /** The number that is typed by some digits. */
  function Number(t: string): (n: i64)
    requires t != "" && AllDigits(t)
    ensures n >= 0
  {
    KeptDigits(t);
    Bounded(Kept(t));
    Value(Kept(t))
  }

  /** Typing digits shows their number, and reading the display gives it. */
  lemma TypingNumber(s: State, t: string)
    requires Sound(s) && s.newInput && t != "" && AllDigits(t)
    ensures Run(s, t) == s.(display := Show(Number(t)), newInput := false)
    ensures Parse(Show(Number(t))) == Number(t)
  {
    hide Parse, Sound, Press;
    KeptDigits(t);
    TypingDigits(s, t);
    DigitsOfValue(Kept(t));
    ParseOfShow(Number(t));
  }

  /** An operator and the digits typed after it, if any. */
  datatype Term = Term(op: char, number: string)

  predicate IsChain(ts: seq<Term>) {
    forall i :: 0 <= i < |ts| ==> IsOperator(ts[i].op) && AllDigits(ts[i].number)
  }

  function Keys(ts: seq<Term>): (k: string) {
    if ts == [] then "" else [ts[0].op] + ts[0].number + Keys(ts[1..])
  }

  /** What the display is read as: every number but the least as itself. */
  function Reread(x: i64): (y: i64) { if x == MIN then MIN + 1 else x }

  /** What an operator is applied to: the number typed after it, or else the number shown. */
  function Operand(x: i64, t: string): (y: i64)
    requires AllDigits(t)
    ensures x == MIN ==> y != -1
  {
    if t == "" then Reread(x) else Number(t)
  }

  /** The calculation, from left to right. */
  function Fold(x: i64, ts: seq<Term>): (r: i64)
    requires IsChain(ts)
    decreases |ts|
  {
    if ts == [] then x else Fold(Apply(ts[0].op, x, Operand(x, ts[0].number)), ts[1..])
  }

  /** What the machine holds while a calculation is typed: what it would evaluate to and show. */
  ghost predicate Holds(s: State, x: i64)
    requires Sound(s)
  {
    Evaluated(s).acc == x && Evaluated(s).display == Show(x)
  }

  lemma {:induction false} ChainHolds(s: State, x: i64, ts: seq<Term>)
    requires Sound(s) && IsChain(ts) && Holds(s, x)
    ensures Holds(Run(s, Keys(ts)), Fold(x, ts))
    decreases |ts|
  {
    hide Parse, Show, Digits, Value, Operand, Evaluated, Apply;
    if ts != [] {
      var op, t := ts[0].op, ts[0].number;
      OneTerm(s, x, op, t);
      var u := Run(s, [op] + t);
      RunJoin(s, [op] + t, Keys(ts[1..]));
      ChainHolds(u, Apply(op, x, Operand(x, t)), ts[1..]);
    }
  }

  lemma OneTerm(s: State, x: i64, op: char, t: string)
    requires Sound(s) && IsOperator(op) && AllDigits(t) && Holds(s, x)
    ensures Holds(Run(s, [op] + t), Apply(op, x, Operand(x, t)))
  {
    hide Parse, Show, Digits, Value, Number;
    assert !IsDigit(op);
    PressKeepsSound(s, op);
    var p := Press(s, op);
    assert ([op] + t)[1..] == t && ([op] + t)[0] == op;
    if t == "" {
      ParseOfShow(x);
    } else {
      TypingNumber(p, t);
    }
  }

  lemma EqualsShows(s: State, x: i64)
    requires Sound(s) && Holds(s, x)
    ensures var r := Run(s, "="); r.display == Show(x) && r.pending == None && r.newInput
  {
    hide Parse, Show, Evaluated;
    assert "="[1..] == "";
  }

  /** Where a new number can be typed and nothing is pending, typing n1 op n2 op ... nk and the
      equals key shows the left-to-right result, and a new number can be typed again. */
  lemma ChainShowsFold(s: State, first: string, ts: seq<Term>)
    requires Sound(s) && s.newInput && s.pending == None && first != "" && AllDigits(first) && IsChain(ts)
    ensures var r := Run(s, first + Keys(ts) + "=");
            r.display == Show(Fold(Number(first), ts)) && r.pending == None && r.newInput
  {
    hide Parse, Show, Digits, Value, Number, Fold;
    TypingNumber(s, first);
    var a := Run(s, first);
    assert Holds(a, Number(first));
    RunJoin(s, first, Keys(ts));
    ChainHolds(a, Number(first), ts);
    RunJoin(s, first + Keys(ts), "=");
    EqualsShows(Run(s, first + Keys(ts)), Fold(Number(first), ts));
  }

  /** The clear key shows zero, from every state, and a calculation may go on from that. */
  lemma ClearShowsZero(s: State)
    requires Sound(s)
    ensures var r := Run(s, "C"); r.display == "0" == Show(0) && r.acc == 0 && r.pending == None && r.newInput
  {
    assert "C"[1..] == "";
  }

  /** So it is after the clear key, from every state. */
  lemma ClearedShowsFold(s: State, first: string, ts: seq<Term>)
    requires Sound(s) && first != "" && AllDigits(first) && IsChain(ts)
    ensures var r := Run(s, "C" + first + Keys(ts) + "=");
            r.display == Show(Fold(Number(first), ts)) && r.pending == None && r.newInput
  {
    hide Parse, Show, Digits, Value, Number, Fold;
    ChainShowsFold(Start(), first, ts);
    var keys := first + Keys(ts) + "=";
    assert ("C" + keys)[1..] == keys && ("C" + keys)[0] == 'C';
    assert "C" + first + Keys(ts) + "=" == "C" + keys;
  }

  /** Going on after the equals key: the calculation starts from the number shown, as it is
      read back. */
  lemma ContinueShowsFold(s: State, x: i64, ts: seq<Term>)
    requires Sound(s) && s.pending == None && s.display == Show(x) && ts != [] && IsChain(ts)
    ensures var t := ts[0].number;
            var y := Apply(ts[0].op, Reread(x), if t == "" then Reread(x) else Number(t));
            Run(s, Keys(ts) + "=").display == Show(Fold(y, ts[1..]))
  {
    hide Parse, Show, Digits, Value, Number, Fold, Run, Sound, Holds, Evaluated, Apply;
    var op, t := ts[0].op, ts[0].number;
    var y := Apply(op, Reread(x), if t == "" then Reread(x) else Number(t));
    ParseOfShow(x);
    FirstTerm(s, Reread(x), op, t);
    var u := Run(s, [op] + t);
    RunJoin(s, [op] + t, Keys(ts[1..]));
    ChainHolds(u, y, ts[1..]);
    RunJoin(s, Keys(ts), "=");
    EqualsShows(Run(s, Keys(ts)), Fold(y, ts[1..]));
  }

  /** The first operator after a number that is shown. */
  lemma FirstTerm(s: State, x: i64, op: char, t: string)
    requires Sound(s) && IsOperator(op) && AllDigits(t) && s.pending == None && Parse(s.display) == x
    requires x != MIN
    ensures Holds(Run(s, [op] + t), Apply(op, x, if t == "" then x else Number(t)))
  {
    hide Parse, Show, Digits, Value, Number;
    assert !IsDigit(op);
    PressKeepsSound(s, op);
    var p := Press(s, op);
    assert ([op] + t)[1..] == t && ([op] + t)[0] == op;
    if t != "" { TypingNumber(p, t); }
  }

  /** Every calculation goes on with the number shown exactly when that is not the least. */
  lemma ContinuesExactly(s: State, x: i64)
    requires Sound(s) && s.pending == None && s.display == Show(x)
    ensures (forall ts :: ts != [] && IsChain(ts) ==> Run(s, Keys(ts) + "=").display == Show(Fold(x, ts))) <==> x != MIN
  {
    hide Parse, Show, Digits, Value, Run, Sound, Apply, Number;
    if x == MIN {
      var ts := [Term('+', "0")];
      PlusZero(x);
      PlusZero(x + 1);
      assert IsChain(ts);
      ContinueShowsFold(s, x, ts);
      ShowApart(x, x + 1);
    } else {
      forall ts | ts != [] && IsChain(ts) ensures Run(s, Keys(ts) + "=").display == Show(Fold(x, ts)) {
        ContinueShowsFold(s, x, ts);
      }
    }
  }

  lemma PlusZero(x: i64)
    ensures IsChain([Term('+', "0")]) && Fold(x, [Term('+', "0")]) == x == Apply('+', x, Number("0"))
  {
    var ts := [Term('+', "0")];
    assert ts[1..] == [];
    ZeroIsNumber();
  }

  /** Keys other than the sixteen do nothing, wherever they come in. */
  lemma {:induction false} OtherKeysDoNothing(s: State, keys: string)
    requires Sound(s)
    ensures Run(s, keys) == Run(s, OnlyKnown(keys))
    decreases |keys|
  {
    hide Sound;
    if keys != "" {
      var k := keys[0];
      PressKeepsSound(s, k);
      OtherKeysDoNothing(Press(s, k), keys[1..]);
      if k in KEYS {
        assert OnlyKnown(keys)[1..] == OnlyKnown(keys[1..]) && OnlyKnown(keys)[0] == k;
      } else {
        assert OnlyKnown(keys) == OnlyKnown(keys[1..]);
        Known(k);
      }
    }
  }

  const KEYS := "0123456789+-*/=C"

  lemma Known(k: char)
    ensures IsDigit(k) || IsOperator(k) || k == '=' || k == 'C' ==> k in KEYS
  {
    if IsDigit(k) { assert KEYS[k as int - '0' as int] == k; }
    assert KEYS[10] == '+' && KEYS[11] == '-' && KEYS[12] == '*' && KEYS[13] == '/';
    assert KEYS[14] == '=' && KEYS[15] == 'C';
  }

  function OnlyKnown(keys: string): (r: string) {
    if keys == "" then "" else (if keys[0] in KEYS then [keys[0]] else "") + OnlyKnown(keys[1..])
  }

  lemma ShowApart(x: int, y: int)
    requires x < y < 0
    ensures Show(x) != Show(y)
  {
    hide Digits, Value;
    ValueOfDigits(-x);
    ValueOfDigits(-y);
    assert Show(x)[1..] == Digits(-x) && Show(y)[1..] == Digits(-y);
  }

  lemma {:induction false} ValueOfNines(t: string)
    requires forall i :: 0 <= i < |t| ==> t[i] == '9'
    ensures AllDigits(t) && Value(t) + 1 == Pow10(|t|)
    decreases |t|
  {
    if t != "" { ValueOfNines(t[..|t| - 1]); }
  }

  const NINES := "999999999999999"

  lemma FifteenNines()
    ensures AllDigits(NINES) && Number(NINES) == 999_999_999_999_999
  {
    hide Value, Pow10;
    ValueOfNines(NINES);
    assert NINES[0] == '9' && |NINES| == 15 && Stripped(NINES) == NINES;
    assert Kept(NINES) == NINES;
    FifteenZeros();
  }

  lemma FifteenZeros()
    ensures Pow10(15) == 1_000_000_000_000_000
  {
    assert Pow10(3) == 1000 && Pow10(6) == 1_000_000 && Pow10(9) == 1_000_000_000 && Pow10(12) == 1_000_000_000_000;
  }

  /** The least integer can be reached by keys, and adding zero to it then shows one more. */
  lemma LeastByKeys(s: State)
    requires Sound(s)
    ensures Run(s, "C0-" + NINES + "*" + NINES + "=").display == Show(MIN)
    ensures Run(s, "C0-" + NINES + "*" + NINES + "=" + "+0=").display == Show(MIN + 1)
  {
    hide Show, Digits, Value, Run, Sound, Parse, Number, Apply;
    var ts := [Term('-', NINES), Term('*', NINES)];
    var keys := "C0-" + NINES + "*" + NINES + "=";
    FifteenNines();
    ZeroIsNumber();
    LeastFold(ts);
    KeysOfTwo(ts);
    assert "C" + "0" + Keys(ts) + "=" == keys;
    ClearedShowsFold(s, "0", ts);
    PlusZero(MIN + 1);
    var more := [Term('+', "0")];
    ContinueShowsFold(Run(s, keys), MIN, more);
    KeysOfOne(more);
    RunJoin(s, keys, "+0=");
  }

  lemma ZeroIsNumber()
    ensures AllDigits("0") && Number("0") == 0
  {
    OneKept("0");
    assert "0"[..0] == "";
  }

  lemma KeysOfOne(ts: seq<Term>)
    requires ts == [Term('+', "0")]
    ensures Keys(ts) + "=" == "+0="
  {
    assert ts[1..] == [];
  }

  lemma KeysOfTwo(ts: seq<Term>)
    requires |ts| == 2
    ensures Keys(ts) == [ts[0].op] + ts[0].number + ([ts[1].op] + ts[1].number)
  {
    assert ts[1..][1..] == [] && ts[1..][0] == ts[1];
    assert Keys(ts[1..]) == [ts[1].op] + ts[1].number + "";
  }

  lemma LeastFold(ts: seq<Term>)
    requires ts == [Term('-', NINES), Term('*', NINES)]
    ensures IsChain(ts) && Fold(0, ts) == MIN
  {
    hide Value, Digits, Number;
    FifteenNines();
    var n := 999_999_999_999_999;
    assert ts[1..][1..] == [] && ts[1..][0] == ts[1];
    assert Apply('-', 0, n) == -n;
    assert Apply('*', -n, n) == MIN;
    assert Fold(MIN, ts[1..][1..]) == MIN;
  }

  // ----- the program -----

  class Calc {
    var display: string
    var accumulator: i64
    var pending: Option<char>
    var newInput: bool

    ghost function Held(): (s: State)
      reads this
    {
      State(display, accumulator, pending, newInput)
    }

    ghost predicate Valid()
      reads this
    {
      Sound(Held())
    }

    constructor ()
      ensures Valid() && Held() == Start()
    {
      display, accumulator, pending, newInput := "0", 0, None, true;
      new;
      assert Held() == Start();
    }

    /** A key press does what the machine does; every state it can be in is sound. */
    method HandleButton(key: char)
      requires Valid()
      modifies this
      ensures Valid() && Held() == Press(old(Held()), key)
    {
      hide Parse, Apply, Show;
      PressKeepsSound(Held(), key);
      if IsDigit(key) {
        if newInput {
          display, newInput := [key], false;
        } else if |display| < 15 {
          if display == "0" { display := [key]; } else { display := display + [key]; }
        }
      } else if IsOperator(key) {
        EvaluatePending();
        pending, newInput := Some(key), true;
      } else if key == '=' {
        EvaluatePending();
        pending, newInput := None, true;
      } else if key == 'C' {
        display, accumulator, pending, newInput := "0", 0, None, true;
      }
    }

    method EvaluatePending()
      requires Valid()
      modifies this
      ensures Held() == Evaluated(old(Held()))
    {
      hide Parse, Show, Quotient, Clamp;
      var current := ParseDisplay(display);
      if pending.Some? {
        NeverOverflows(Held());
        var a, b: int := accumulator, current;
        var result: i64;
        if pending.value == '+' {
          result := Clamp(a + b);
        } else if pending.value == '-' {
          result := Clamp(a - b);
        } else if pending.value == '*' {
          result := Clamp(a * b);
        } else if current != 0 {
          result := DivideI64(accumulator, current);
        } else {
          result := 0;
        }
        accumulator, display := result, Show(result);
      } else {
        accumulator := current;
      }
    }
  }

  /** The machine's division: it must not be asked for a quotient that does not fit. */
  function DivideI64(a: i64, b: i64): (q: i64)
    requires b != 0 && !(a == MIN && b == -1)
    ensures q == Quotient(a, b)
  {
    Quotient(a, b)
  }

  /** Reads the display one character at a time. */
  method ParseDisplay(text: string) returns (x: i64)
    ensures x == Parse(text)
  {
    hide Clamp, IsDigit;
    var result: i64 := 0;
    var negative := false;
    for i := 0 to |text|
      invariant negative <==> i > 0 && text[0] == '-'
      invariant result == Magnitude(if negative then text[1..i] else text[..i]) && result >= 0
    {
      var b := text[i];
      ReadOne(text, i);
      if b == '-' && i == 0 {
        negative := true;
      } else if IsDigit(b) {
        var n: int := result;
        result := Clamp(Clamp(n * 10) as int + DigitOf(b));
      }
    }
    assert text[..|text|] == text;
    x := if negative then -result else result;
  }

  lemma ReadOne(t: string, i: nat)
    requires i < |t|
    ensures t[..i + 1] == t[..i] + [t[i]] && (t[..i] + [t[i]])[..i] == t[..i]
    ensures i >= 1 ==> t[1..i + 1] == t[1..i] + [t[i]] && (t[1..i] + [t[i]])[..i - 1] == t[1..i]
    ensures i == 0 && t[0] == '-' ==> Magnitude(t[1..1]) == 0
  {}
}
