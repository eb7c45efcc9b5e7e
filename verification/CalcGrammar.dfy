/** What the calculator accepts: the grammar of its expressions, as derivation trees that record
    every character, and the value such a tree stands for. */
module CalcGrammar {
  import opened Basics
  import opened LibString
  import opened Calc

  /** expression: term | expression ws (+|-) term */
  datatype ExprTree = OneTerm(t: TermTree) | Sum(left: ExprTree, ws: string, op: char, right: TermTree)

  /** term: factor | term ws (*|/) factor */
  datatype TermTree = OneFactor(f: FactorTree) | Product(left: TermTree, ws: string, op: char, right: FactorTree)

  /** factor: ws (+|-) factor | ws digits | ws ( expression ws ) */
  datatype FactorTree =
    | Signed(ws: string, sign: char, f: FactorTree)
    | Number(ws: string, digits: string)
    | Paren(ws: string, e: ExprTree, close: string)

  predicate ExprOk(e: ExprTree) {
    match e
    case OneTerm(t) => TermOk(t)
    case Sum(l, ws, op, r) => ExprOk(l) && Spaces(ws) && (op == '+' || op == '-') && TermOk(r)
  }

  predicate TermOk(t: TermTree) {
    match t
    case OneFactor(f) => FactorOk(f)
    case Product(l, ws, op, r) => TermOk(l) && Spaces(ws) && (op == '*' || op == '/') && FactorOk(r)
  }

  predicate FactorOk(f: FactorTree) {
    match f
    case Signed(ws, sign, g) => Spaces(ws) && (sign == '+' || sign == '-') && FactorOk(g)
    case Number(ws, digits) => Spaces(ws) && AllDigits(digits)
    case Paren(ws, e, close) => Spaces(ws) && ExprOk(e) && Spaces(close)
  }

  /** The text a tree derives. */
  function ExprText(e: ExprTree): string {
    match e
    case OneTerm(t) => TermText(t)
    case Sum(l, ws, op, r) => ExprText(l) + (ws + [op] + TermText(r))
  }

  function TermText(t: TermTree): string {
    match t
    case OneFactor(f) => FactorText(f)
    case Product(l, ws, op, r) => TermText(l) + (ws + [op] + FactorText(r))
  }

  function FactorText(f: FactorTree): string {
    match f
    case Signed(ws, sign, g) => ws + [sign] + FactorText(g)
    case Number(ws, digits) => ws + digits
    case Paren(ws, e, close) => ws + "(" + ExprText(e) + (close + ")")
  }

  /** The value of a tree in C's arithmetic: a 32-bit number, a division by zero, or an
      intermediate that does not fit. The first trouble from the left counts. */
  datatype Val = Num(v: int) | ByZero | TooBig

  function Clamp(x: int): Val {
    if Fits32(x) then Num(x) else TooBig
  }

  function ExprVal(e: ExprTree): Val {
    match e
    case OneTerm(t) => TermVal(t)
    case Sum(l, ws, op, r) =>
      var a, b := ExprVal(l), TermVal(r);
      if !a.Num? then a else if !b.Num? then b else Clamp(if op == '+' then a.v + b.v else a.v - b.v)
  }

  function TermVal(t: TermTree): Val {
    match t
    case OneFactor(f) => FactorVal(f)
    case Product(l, ws, op, r) =>
      var a, b := TermVal(l), FactorVal(r);
      if !a.Num? then a
      else if !b.Num? then b
      else if op == '*' then Clamp(a.v * b.v)
      else if b.v == 0 then ByZero
      else Clamp(TruncDiv(a.v, b.v))
  }

  /** Odd number of minus signs in front. */
  predicate Odd(f: FactorTree) {
    match f
    case Signed(_, sign, g) => (sign == '-') != Odd(g)
    case _ => false
  }

  /** The value behind the signs. */
  function CoreVal(f: FactorTree): Val
    decreases f, 0
  {
    match f
    case Signed(_, _, g) => CoreVal(g)
    case Number(_, digits) => Clamp(Decimal(digits, 0))
    case Paren(_, e, _) => ExprVal(e)
  }

  function NegVal(v: Val): Val {
    if v.Num? then Clamp(-v.v) else v
  }

  /** The signs in front of a number or parenthesis are counted, and applied once. */
  function FactorVal(f: FactorTree): Val
    decreases f, 1
  {
    if Odd(f) then NegVal(CoreVal(f)) else CoreVal(f)
  }

  // ---------- The value is the arithmetic value ----------

  /** The quotient of the law of division toward zero. */
  ghost function Quotient(a: int, b: int): (q: int)
    requires b != 0
    ensures IsQuotient(a, b, q)
  {
    TruncDivLaw(a, b);
    var q :| IsQuotient(a, b, q);
    q
  }

  /** Plain arithmetic over all integers; None for a division by zero. */
  ghost function ExprMath(e: ExprTree): Option<int> {
    match e
    case OneTerm(t) => TermMath(t)
    case Sum(l, _, op, r) =>
      var a, b := ExprMath(l), TermMath(r);
      if a.None? || b.None? then None else Some(if op == '+' then a.value + b.value else a.value - b.value)
  }

  ghost function TermMath(t: TermTree): Option<int> {
    match t
    case OneFactor(f) => FactorMath(f)
    case Product(l, _, op, r) =>
      var a, b := TermMath(l), FactorMath(r);
      if a.None? || b.None? then None
      else if op == '*' then Some(a.value * b.value)
      else if b.value == 0 then None
      else Some(Quotient(a.value, b.value))
  }

  ghost function FactorMath(f: FactorTree): Option<int> {
    match f
    case Signed(_, sign, g) =>
      var a := FactorMath(g);
      if a.None? then None else Some(if sign == '-' then -a.value else a.value)
    case Number(_, digits) => Some(Numeral(digits))
    case Paren(_, e, _) => ExprMath(e)
  }

  /** The range of int32_t. */
  ghost predicate InRange(m: Option<int>) {
    m.Some? ==> -2147483648 <= m.value <= 2147483647
  }

  /** Every intermediate value is in range; of signs in front, the value behind them and the result. */
  ghost predicate ExprWithin(e: ExprTree) {
    match e
    case OneTerm(t) => TermWithin(t)
    case Sum(l, _, _, r) => ExprWithin(l) && TermWithin(r) && InRange(ExprMath(e))
  }

  ghost predicate TermWithin(t: TermTree) {
    match t
    case OneFactor(f) => FactorWithin(f)
    case Product(l, _, _, r) => TermWithin(l) && FactorWithin(r) && InRange(TermMath(t))
  }

  ghost predicate FactorWithin(f: FactorTree)
    decreases f, 1
  {
    CoreWithin(f) && InRange(FactorMath(f))
  }

  ghost predicate CoreWithin(f: FactorTree)
    decreases f, 0
  {
    match f
    case Signed(_, _, g) => CoreWithin(g)
    case Number(_, _) => InRange(FactorMath(f))
    case Paren(_, e, _) => ExprWithin(e)
  }

  /** The 32-bit value v is the plain value m where everything stayed in range, and a number only
      there. */
  ghost predicate Agrees(v: Val, m: Option<int>, within: bool) {
    && (v.Num? ==> m == Some(v.v)) && (v.ByZero? ==> m == None)
    && (v.Num? <==> m.Some? && within)
  }

  lemma {:induction false} ExprValIsMath(e: ExprTree)
    requires ExprOk(e)
    ensures Agrees(ExprVal(e), ExprMath(e), ExprWithin(e))
  {
    match e
    case OneTerm(t) => TermValIsMath(t);
    case Sum(l, _, op, r) =>
      ExprValIsMath(l);
      TermValIsMath(r);
  }

  lemma {:induction false} TermValIsMath(t: TermTree)
    requires TermOk(t)
    ensures Agrees(TermVal(t), TermMath(t), TermWithin(t))
  {
    match t
    case OneFactor(f) => FactorValIsMath(f);
    case Product(l, _, op, r) =>
      TermValIsMath(l);
      FactorValIsMath(r);
      var a, b := TermVal(l), FactorVal(r);
      if a.Num? && b.Num? && b.v != 0 {
        TruncDivLaw(a.v, b.v);
        QuotientUnique(a.v, b.v, TruncDiv(a.v, b.v), Quotient(a.v, b.v));
      }
      hide TruncDiv, IsQuotient;
  }

  lemma {:induction false} FactorValIsMath(f: FactorTree)
    requires FactorOk(f)
    ensures Agrees(FactorVal(f), FactorMath(f), FactorWithin(f))
    ensures CoreVal(f).Num? ==> FactorMath(f) == Some(if Odd(f) then -CoreVal(f).v else CoreVal(f).v)
    ensures CoreVal(f).ByZero? ==> FactorMath(f) == None
    ensures CoreVal(f).Num? <==> FactorMath(f).Some? && CoreWithin(f)
  {
    match f
    case Signed(_, sign, g) =>
      FactorValIsMath(g);
      FactorValFits(f);
      assert CoreVal(f) == CoreVal(g) && Odd(f) == ((sign == '-') != Odd(g));
      assert FactorVal(f) == if Odd(f) then NegVal(CoreVal(g)) else CoreVal(g);
    case Number(_, digits) =>
      DecimalIsNumeral(digits);
      assert !Odd(f) && FactorVal(f) == CoreVal(f) == Clamp(Numeral(digits));
    case Paren(_, e, _) =>
      ExprValIsMath(e);
      assert !Odd(f) && FactorVal(f) == CoreVal(f) == ExprVal(e);
      assert FactorMath(f) == ExprMath(e);
      ValFits(e);
  }

  lemma {:induction false} ValFits(e: ExprTree)
    ensures ExprVal(e).Num? ==> Fits32(ExprVal(e).v)
  {
    match e
    case OneTerm(t) => TermValFits(t);
    case Sum(_, _, _, _) =>
  }

  lemma {:induction false} TermValFits(t: TermTree)
    ensures TermVal(t).Num? ==> Fits32(TermVal(t).v)
  {
    match t
    case OneFactor(f) => FactorValFits(f);
    case Product(_, _, _, _) =>
  }

  lemma {:induction false} FactorValFits(f: FactorTree)
    ensures FactorVal(f).Num? ==> Fits32(FactorVal(f).v)
    ensures CoreVal(f).Num? ==> Fits32(CoreVal(f).v)
  {
    match f
    case Signed(_, _, g) => FactorValFits(g);
    case Number(_, _) =>
    case Paren(_, e, _) => ValFits(e);
  }

  // ---------- Completeness: every derivation is parsed ----------

  /** What the parser makes of a value followed by more text. */
  function Outcome(v: Val, rest: string): Parse {
    match v
    case Num(x) => Done(x, rest)
    case ByZero => Fail(true)
    case TooBig => Overflow
  }

  lemma {:induction false} DigitsComplete(digits: string, acc: int, rest: string)
    requires acc >= 0 && Fits32(acc) && !IsDigit(Peek(rest))
    requires forall i :: 0 <= i < |digits| ==> IsDigit(digits[i])
    ensures Digits(digits + rest, acc) == Outcome(Clamp(Decimal(digits, acc)), rest)
  {
    if digits == "" {
      assert digits + rest == rest;
    } else {
      var next := acc * 10 + DigitValue(digits[0]);
      assert (digits + rest)[1..] == digits[1..] + rest;
      if Fits32(next) {
        DigitsComplete(digits[1..], next, rest);
      } else {
        DecimalGrows(digits[1..], next);
      }
    }
  }

  function SignedAtom(s: string, negative: bool): Parse {
    var (n, t) := Signs(SkipSpaces(s), negative);
    Atom(n, t)
  }

  lemma {:induction false} FactorIsSignedAtom(s: string)
    ensures Factor(s) == SignedAtom(s, false)
  {
  }

  predicate NoDigit(rest: string) {
    !IsDigit(Peek(rest))
  }

  /** A derived factor, met with some signs already counted. */
  lemma {:induction false} SignedComplete(f: FactorTree, rest: string, negative: bool)
    requires FactorOk(f) && NoDigit(rest)
    ensures SignedAtom(FactorText(f) + rest, negative) ==
            Outcome(if negative != Odd(f) then NegVal(CoreVal(f)) else CoreVal(f), rest)
    decreases f, 0
  {
    hide Signs, Expression, Digits, SkipSpaces;
    match f
    case Signed(ws, sign, g) =>
      var s := [sign] + (FactorText(g) + rest);
      assert FactorText(f) + rest == ws + s;
      SkipsSpaces(ws, s);
      SignTaken(sign, FactorText(g) + rest, negative);
      SignedComplete(g, rest, negative != (sign == '-'));
    case Number(ws, digits) =>
      assert FactorText(f) + rest == ws + (digits + rest);
      SkipsSpaces(ws, digits + rest);
      assert (digits + rest)[0] == digits[0];
      NoSignsAhead(digits + rest, negative);
      DigitsComplete(digits, 0, rest);
    case Paren(ws, e, close) =>
      var after := close + ")" + rest;
      var s := "(" + (ExprText(e) + after);
      assert FactorText(f) + rest == ws + s;
      SkipsSpaces(ws, s);
      NoSignsAhead(s, negative);
      assert s[1..] == ExprText(e) + after;
      assert after == close + (")" + rest);
      SkipsSpaces(close, ")" + rest);
      SkipStops(")" + rest);
      SpacesThenNoDigit(close, ")" + rest);
      ExprComplete(e, after);
      LoopStops(if ExprVal(e).Num? then ExprVal(e).v else 0, after);
      SkipStops(SkipSpaces(after));
      assert (")" + rest)[1..] == rest;
  }

  lemma {:induction false} SkipStops(s: string)
    requires s == "" || !IsSpace(s[0])
    ensures SkipSpaces(s) == s
  {
  }

  lemma {:induction false} SignTaken(sign: char, s: string, negative: bool)
    requires sign == '+' || sign == '-'
    ensures Signs(SkipSpaces([sign] + s), negative) == Signs(SkipSpaces(s), negative != (sign == '-'))
  {
  }

  lemma {:induction false} NoSignsAhead(s: string, negative: bool)
    requires s != "" && !IsSpace(s[0]) && s[0] != '+' && s[0] != '-'
    ensures SkipSpaces(s) == s && Signs(SkipSpaces(s), negative) == (negative, s)
  {
  }

  lemma {:induction false} SpacesThenNoDigit(ws: string, s: string)
    requires Spaces(ws) && NoDigit(s)
    ensures NoDigit(ws + s)
  {
  }

  /** An expression loop ends where no operator follows. */
  lemma {:induction false} LoopStops(v: int, s: string)
    requires Peek(SkipSpaces(s)) != '+' && Peek(SkipSpaces(s)) != '-'
    ensures ExpressionLoop(v, s) == Done(v, SkipSpaces(s))
  {
  }

  lemma {:induction false} TermStops(v: int, s: string)
    requires Peek(SkipSpaces(s)) != '*' && Peek(SkipSpaces(s)) != '/'
    ensures TermLoop(v, s) == Done(v, SkipSpaces(s))
  {
  }

  lemma {:induction false} LoopAfterSkip(v: int, s: string)
    ensures ExpressionLoop(v, SkipSpaces(s)) == ExpressionLoop(v, s)
  {
  }

  lemma {:induction false} FactorComplete(f: FactorTree, rest: string)
    requires FactorOk(f) && NoDigit(rest)
    ensures Factor(FactorText(f) + rest) == Outcome(FactorVal(f), rest)
    decreases f, 1
  {
    FactorIsSignedAtom(FactorText(f) + rest);
    SignedComplete(f, rest, false);
  }

  /** After a derived term the parser stands in its loop. */
  function TermThen(v: Val, rest: string): Parse {
    if v.Num? then TermLoop(v.v, rest) else Outcome(v, rest)
  }

  function ExprThen(v: Val, rest: string): Parse {
    if v.Num? then ExpressionLoop(v.v, rest) else Outcome(v, rest)
  }

  lemma {:induction false} TermComplete(t: TermTree, rest: string)
    requires TermOk(t) && NoDigit(rest)
    ensures Term(TermText(t) + rest) == TermThen(TermVal(t), rest)
    decreases t, 2
  {
    match t
    case OneFactor(f) =>
      FactorComplete(f, rest);
    case Product(l, ws, op, r) =>
      var tail := [op] + (FactorText(r) + rest);
      assert TermText(t) + rest == TermText(l) + (ws + tail);
      SpacesThenNoDigit(ws, tail);
      TermComplete(l, ws + tail);
      FactorComplete(r, rest);
      SkipsSpaces(ws, tail);
      SkipStops(tail);
      assert tail[1..] == FactorText(r) + rest;
  }

  lemma {:induction false} ExprTextOne(t: TermTree)
    ensures ExprText(OneTerm(t)) == TermText(t)
  {
  }

  lemma {:induction false} ExprTextSum(l: ExprTree, ws: string, op: char, r: TermTree, rest: string)
    ensures ExprText(Sum(l, ws, op, r)) + rest == ExprText(l) + (ws + ([op] + (TermText(r) + rest)))
  {
  }

  /** A derived expression, where neither a digit nor a multiplication follows. */
  lemma {:induction false} ExprComplete(e: ExprTree, rest: string)
    requires ExprOk(e) && NoDigit(rest)
    requires Peek(SkipSpaces(rest)) != '*' && Peek(SkipSpaces(rest)) != '/'
    ensures Expression(ExprText(e) + rest) == ExprThen(ExprVal(e), rest)
    decreases e, 3
  {
    hide TermLoop, SkipSpaces, TermText, ExprText;
    TermStops(if e.Sum? && TermVal(e.right).Num? then TermVal(e.right).v else 0, rest);
    LoopAfterSkip(if ExprVal(e).Num? then ExprVal(e).v else 0, rest);
    match e
    case OneTerm(t) =>
      ExprTextOne(t);
      TermStops(if TermVal(t).Num? then TermVal(t).v else 0, rest);
      TermComplete(t, rest);
    case Sum(l, ws, op, r) =>
      var tail := [op] + (TermText(r) + rest);
      ExprTextSum(l, ws, op, r, rest);
      SpacesThenNoDigit(ws, tail);
      SkipsSpaces(ws, tail);
      SkipStops(tail);
      ExprComplete(l, ws + tail);
      TermComplete(r, rest);
      assert tail[1..] == TermText(r) + rest;
  }

  function VerdictOf(v: Val): Verdict {
    match v
    case Num(x) => Accepted(x)
    case ByZero => Rejected
    case TooBig => Undefined
  }

  /** Completeness: the calculator gives every derivable text its value. */
  lemma {:induction false} EvaluateComplete(e: ExprTree, ws: string)
    requires ExprOk(e) && Spaces(ws)
    ensures Evaluate(ExprText(e) + ws) == VerdictOf(ExprVal(e))
  {
    assert ws + "" == ws;
    SkipsSpaces(ws, "");
    SpacesThenNoDigit(ws, "");
    ExprComplete(e, ws);
    SkipStops("");
  }

  // ---------- Soundness: what is accepted is derived ----------

  /** The spaces at the front of a text. */
  lemma {:induction false} SplitSpaces(s: string) returns (ws: string)
    ensures Spaces(ws) && s == ws + SkipSpaces(s)
  {
    if s != "" && IsSpace(s[0]) {
      var tail := SplitSpaces(s[1..]);
      ws := [s[0]] + tail;
      hide IsSpace;
      var rest := SkipSpaces(s[1..]);
      assert SkipSpaces(s) == rest && s[1..] == tail + rest;
      hide SkipSpaces;
      assert s == [s[0]] + s[1..];
    } else {
      ws := "";
    }
  }

  lemma {:induction false} DigitsSound(s: string, acc: int) returns (digits: string)
    requires acc >= 0 && Fits32(acc) && Digits(s, acc).Done?
    ensures forall i :: 0 <= i < |digits| ==> IsDigit(digits[i])
    ensures s == digits + Digits(s, acc).rest && Digits(s, acc).value == Decimal(digits, acc)
    ensures Fits32(Decimal(digits, acc))
    ensures IsDigit(Peek(s)) ==> digits != ""
  {
    if s == "" || !IsDigit(s[0]) {
      digits := "";
    } else {
      var tail := DigitsSound(s[1..], acc * 10 + DigitValue(s[0]));
      digits := [s[0]] + tail;
      assert s == [s[0]] + s[1..];
      assert digits[1..] == tail;
    }
  }

  /** What the parser read behind the signs. */
  lemma {:induction false} AtomSound(t: string, negative: bool) returns (f: FactorTree)
    requires Atom(negative, t).Done?
    ensures FactorOk(f) && !f.Signed? && t == FactorText(f) + Atom(negative, t).rest
    ensures Num(Atom(negative, t).value) == if negative then NegVal(CoreVal(f)) else CoreVal(f)
    decreases |t|, 0
  {
    if Peek(t) == '(' {
      var inner := Expression(t[1..]);
      var e, ws := ExprSound(t[1..]);
      var close := SplitSpaces(inner.rest);
      f := Paren("", e, ws + close);
      ParenText(t, e, ws, close, SkipSpaces(inner.rest));
      hide ExprText, FactorText, Expression, SkipSpaces, Digits;
    } else {
      var digits := DigitsSound(t, 0);
      f := Number("", digits);
      assert "" + digits == digits;
    }
  }

  lemma {:induction false} SignedText(ws: string, t: string, g: FactorTree, rest: string)
    requires t != "" && t[1..] == FactorText(g) + rest
    ensures ws + t == FactorText(Signed(ws, t[0], g)) + rest
  {
  }

  lemma {:induction false} SignedSound(s: string, negative: bool) returns (f: FactorTree)
    requires SignedAtom(s, negative).Done?
    ensures FactorOk(f) && s == FactorText(f) + SignedAtom(s, negative).rest
    ensures Num(SignedAtom(s, negative).value) == if negative != Odd(f) then NegVal(CoreVal(f)) else CoreVal(f)
    decreases |s|, 2
  {
    var ws := SplitSpaces(s);
    var t := SkipSpaces(s);
    if Peek(t) == '+' || Peek(t) == '-' {
      var g := SignedSound(t[1..], negative != (t[0] == '-'));
      f := Signed(ws, t[0], g);
      SignedText(ws, t, g, SignedAtom(t[1..], negative != (t[0] == '-')).rest);
      hide Signs, SkipSpaces, FactorText, Atom;
    } else {
      var g := AtomSound(t, negative);
      f := Prefixed(ws, g);
      hide SkipSpaces, FactorText, Atom, CoreVal, Prefixed;
      PrefixedText(ws, g, SignedAtom(s, negative).rest);
    }
  }

  /** An unsigned factor with spaces in front. */
  function Prefixed(ws: string, f: FactorTree): FactorTree {
    match f
    case Number(w, digits) => Number(ws + w, digits)
    case Paren(w, e, close) => Paren(ws + w, e, close)
    case Signed(w, sign, g) => Signed(ws + w, sign, g)
  }

  lemma {:induction false} PrefixedText(ws: string, f: FactorTree, rest: string)
    requires Spaces(ws) && FactorOk(f)
    ensures FactorOk(Prefixed(ws, f)) && ws + (FactorText(f) + rest) == FactorText(Prefixed(ws, f)) + rest
    ensures CoreVal(Prefixed(ws, f)) == CoreVal(f) && Odd(Prefixed(ws, f)) == Odd(f)
  {
    match f
    case Number(w, digits) => assert ws + (w + digits + rest) == (ws + w) + digits + rest;
    case Paren(w, e, close) =>
      assert ws + (w + "(" + ExprText(e) + (close + ")") + rest) == (ws + w) + "(" + ExprText(e) + (close + ")") + rest;
    case Signed(w, sign, g) =>
      assert ws + (w + [sign] + FactorText(g) + rest) == (ws + w) + [sign] + FactorText(g) + rest;
  }

  lemma {:induction false} FactorSound(s: string) returns (f: FactorTree)
    requires Factor(s).Done?
    ensures FactorOk(f) && FactorVal(f) == Num(Factor(s).value) && s == FactorText(f) + Factor(s).rest
    decreases |s|, 3
  {
    FactorIsSignedAtom(s);
    f := SignedSound(s, false);
  }

  lemma {:induction false} ProductText(t0: TermTree, ws0: string, ws1: string, u: string, f: FactorTree, rest: string)
    requires u != "" && u[1..] == FactorText(f) + rest
    ensures TermText(t0) + ws0 + (ws1 + u) == TermText(Product(t0, ws0 + ws1, u[0], f)) + "" + rest
  {
  }

  lemma {:induction false} SumText(e0: ExprTree, ws0: string, ws1: string, u: string, t: TermTree,
                                    ws2: string, rest: string)
    requires u != "" && u[1..] == TermText(t) + ws2 + rest
    ensures ExprText(e0) + ws0 + (ws1 + u) == ExprText(Sum(e0, ws0 + ws1, u[0], t)) + ws2 + rest
  {
  }

  lemma {:induction false} ParenText(t: string, e: ExprTree, ws: string, close: string, u: string)
    requires Peek(t) == '(' && Peek(u) == ')' && t[1..] == ExprText(e) + ws + (close + u)
    ensures t == FactorText(Paren("", e, ws + close)) + u[1..]
  {
  }

  lemma {:induction false} SpacesJoin(a: string, ws0: string, ws1: string, u: string)
    ensures a + ws0 + (ws1 + u) == a + (ws0 + ws1) + u
  {
  }

  lemma {:induction false} TermLoopSound(t0: TermTree, ws0: string, s: string) returns (t: TermTree, ws: string)
    requires TermOk(t0) && TermVal(t0).Num? && Spaces(ws0) && TermLoop(TermVal(t0).v, s).Done?
    ensures var p := TermLoop(TermVal(t0).v, s);
            && TermOk(t) && TermVal(t) == Num(p.value) && Spaces(ws)
            && TermText(t0) + ws0 + s == TermText(t) + ws + p.rest
    decreases |s|, 6
  {
    var ws1 := SplitSpaces(s);
    var u := SkipSpaces(s);
    if Peek(u) != '*' && Peek(u) != '/' {
      t, ws := t0, ws0 + ws1;
      SpacesJoin(TermText(t0), ws0, ws1, u);
    } else {
      var f := FactorSound(u[1..]);
      var t1 := Product(t0, ws0 + ws1, u[0], f);
      var rest := Factor(u[1..]).rest;
      ProductText(t0, ws0, ws1, u, f, rest);
      hide TermText, FactorText, SkipSpaces, Factor;
      t, ws := TermLoopSound(t1, "", rest);
    }
  }

  lemma {:induction false} TermSound(s: string) returns (t: TermTree, ws: string)
    requires Term(s).Done?
    ensures TermOk(t) && TermVal(t) == Num(Term(s).value) && Spaces(ws) && s == TermText(t) + ws + Term(s).rest
    decreases |s|, 4
  {
    var f := FactorSound(s);
    var rest := Factor(s).rest;
    assert TermText(OneFactor(f)) + "" + rest == s;
    t, ws := TermLoopSound(OneFactor(f), "", rest);
  }

  /** One round of the expression loop that succeeds. */
  lemma {:induction false} ExprRound(v: int, s: string)
    requires ExpressionLoop(v, s).Done?
    ensures var u := SkipSpaces(s);
            if Peek(u) != '+' && Peek(u) != '-' then ExpressionLoop(v, s) == Done(v, u)
            else
              && |u| <= |s| && u != "" && Term(u[1..]).Done?
              && var rhs := Term(u[1..]);
                 var sum := if u[0] == '+' then v + rhs.value else v - rhs.value;
                 |rhs.rest| < |u[1..]| && Fits32(sum) && ExpressionLoop(v, s) == ExpressionLoop(sum, rhs.rest)
  {
  }

  lemma {:induction false} ExprLoopSound(e0: ExprTree, ws0: string, s: string) returns (e: ExprTree, ws: string)
    requires ExprOk(e0) && ExprVal(e0).Num? && Spaces(ws0) && ExpressionLoop(ExprVal(e0).v, s).Done?
    ensures var p := ExpressionLoop(ExprVal(e0).v, s);
            && ExprOk(e) && ExprVal(e) == Num(p.value) && Spaces(ws)
            && ExprText(e0) + ws0 + s == ExprText(e) + ws + p.rest
    decreases |s|, 6
  {
    hide ExpressionLoop, Term, SkipSpaces, ExprText, TermText;
    ExprRound(ExprVal(e0).v, s);
    var ws1 := SplitSpaces(s);
    var u := SkipSpaces(s);
    if Peek(u) != '+' && Peek(u) != '-' {
      e, ws := e0, ws0 + ws1;
      SpacesJoin(ExprText(e0), ws0, ws1, u);
    } else {
      var t, ws2 := TermSound(u[1..]);
      var e1 := Sum(e0, ws0 + ws1, u[0], t);
      var rest := Term(u[1..]).rest;
      SumText(e0, ws0, ws1, u, t, ws2, rest);
      e, ws := ExprLoopSound(e1, ws2, rest);
    }
  }

  lemma {:induction false} ExprSound(s: string) returns (e: ExprTree, ws: string)
    requires Expression(s).Done?
    ensures ExprOk(e) && ExprVal(e) == Num(Expression(s).value) && Spaces(ws)
    ensures s == ExprText(e) + ws + Expression(s).rest
    decreases |s|, 5
  {
    var t, ws0 := TermSound(s);
    var rest := Term(s).rest;
    assert ExprText(OneTerm(t)) + ws0 + rest == s;
    e, ws := ExprLoopSound(OneTerm(t), ws0, rest);
  }

  /** e, followed by spaces, derives the whole text. */
  ghost predicate Derives(e: ExprTree, s: string) {
    ExprOk(e) && exists ws :: Spaces(ws) && s == ExprText(e) + ws
  }

  lemma {:induction false} EvaluateSound(s: string) returns (e: ExprTree)
    requires Evaluate(s).Accepted?
    ensures Derives(e, s) && ExprVal(e) == Num(Evaluate(s).value)
  {
    var ws: string;
    e, ws := ExprSound(s);
    var last := SplitSpaces(Expression(s).rest);
    assert s == ExprText(e) + (ws + last);
  }

  /** The calculator accepts a text with a value exactly if the text derives an expression with
      that value. */
  lemma {:induction false} EvaluateIffDerives(s: string, v: int)
    ensures Evaluate(s) == Accepted(v) <==> exists e :: Derives(e, s) && ExprVal(e) == Num(v)
  {
    if Evaluate(s) == Accepted(v) {
      var e := EvaluateSound(s);
    }
    if e :| Derives(e, s) && ExprVal(e) == Num(v) {
      var ws :| Spaces(ws) && s == ExprText(e) + ws;
      EvaluateComplete(e, ws);
    }
  }

  /** The same in plain arithmetic: accepted with v exactly if the text derives an expression of value v
      whose intermediate values all fit 32 bits. */
  lemma {:induction false} EvaluateExactly(s: string, v: int)
    ensures Evaluate(s) == Accepted(v) <==> exists e :: Derives(e, s) && ExprWithin(e) && ExprMath(e) == Some(v)
  {
    EvaluateIffDerives(s, v);
    forall e | Derives(e, s)
      ensures ExprVal(e) == Num(v) <==> ExprWithin(e) && ExprMath(e) == Some(v)
    {
      ExprValIsMath(e);
    }
  }

  /** Where arithmetic stays within 32 bits, it rejects exactly the texts that derive nothing and
      those that divide by zero. */
  lemma {:induction false} RejectedIffUnderivable(s: string)
    requires Evaluate(s) != Undefined
    ensures Evaluate(s) == Rejected <==> forall e :: Derives(e, s) ==> ExprMath(e) == None
  {
    forall e | Derives(e, s)
      ensures Evaluate(s) == VerdictOf(ExprVal(e)) && Agrees(ExprVal(e), ExprMath(e), ExprWithin(e))
    {
      var ws :| Spaces(ws) && s == ExprText(e) + ws;
      EvaluateComplete(e, ws);
      ExprValIsMath(e);
    }
    if Evaluate(s).Accepted? {
      var e := EvaluateSound(s);
      ExprValIsMath(e);
    }
  }

  // ---------- What an accepted text is made of ----------

  predicate InAlphabet(c: char) {
    '0' <= c <= '9' || c in "+-*/()" || c in " \t\n\r"
  }

  ghost predicate Spelled(s: string) {
    forall i :: 0 <= i < |s| ==> InAlphabet(s[i])
  }

  lemma {:induction false} SpelledParts(ws: string, digits: string)
    ensures Spaces(ws) ==> Spelled(ws)
    ensures AllDigits(digits) ==> Spelled(digits)
    ensures Spelled("(") && Spelled(")")
    ensures forall op :: op in "+-*/" ==> Spelled([op])
  {
  }

  lemma {:induction false} SpelledConcat(a: string, b: string)
    ensures Spelled(a + b) <==> Spelled(a) && Spelled(b)
  {
    assert forall i :: 0 <= i < |a| ==> (a + b)[i] == a[i];
    assert forall i :: 0 <= i < |b| ==> (a + b)[|a| + i] == b[i];
  }

  lemma {:induction false} ExprSpelled(e: ExprTree)
    requires ExprOk(e)
    ensures Spelled(ExprText(e))
  {
    match e
    case OneTerm(t) => TermSpelled(t);
    case Sum(l, ws, op, r) =>
      ExprSpelled(l);
      TermSpelled(r);
      OperatorSpelled(ExprText(l), ws, op, TermText(r));
  }

  lemma {:induction false} OperatorSpelled(l: string, ws: string, op: char, r: string)
    requires Spelled(l) && Spaces(ws) && op in "+-*/" && Spelled(r)
    ensures Spelled(l + (ws + [op] + r))
  {
    SpelledParts(ws, "");
    SpelledConcat(ws, [op]);
    SpelledConcat(ws + [op], r);
    SpelledConcat(l, ws + [op] + r);
  }

  lemma {:induction false} TermSpelled(t: TermTree)
    requires TermOk(t)
    ensures Spelled(TermText(t))
  {
    match t
    case OneFactor(f) => FactorSpelled(f);
    case Product(l, ws, op, r) =>
      TermSpelled(l);
      FactorSpelled(r);
      OperatorSpelled(TermText(l), ws, op, FactorText(r));
  }

  lemma {:induction false} FactorSpelled(f: FactorTree)
    requires FactorOk(f)
    ensures Spelled(FactorText(f))
  {
    hide Spelled;
    SpelledParts(f.ws, if f.Number? then f.digits else "");
    match f
    case Signed(ws, sign, g) =>
      FactorSpelled(g);
      SpelledConcat(ws, [sign]);
      SpelledConcat(ws + [sign], FactorText(g));
    case Number(ws, digits) => SpelledConcat(ws, digits);
    case Paren(ws, e, close) =>
      ExprSpelled(e);
      SpelledParts(close, "");
      SpelledConcat(ws, "(");
      SpelledConcat(ws + "(", ExprText(e));
      SpelledConcat(close, ")");
      SpelledConcat(ws + "(" + ExprText(e), close + ")");
  }

  /** An accepted text holds digits, the four operators, parentheses and the four space characters, and
      nothing else. */
  lemma {:induction false} AcceptedIsSpelled(s: string)
    requires Evaluate(s).Accepted?
    ensures forall i :: 0 <= i < |s| ==> '0' <= s[i] <= '9' || s[i] in "+-*/()" || s[i] in " \t\n\r"
  {
    hide Evaluate, ExprText;
    var e := EvaluateSound(s);
    var ws :| Spaces(ws) && s == ExprText(e) + ws;
    ExprSpelled(e);
    SpelledParts(ws, "");
    SpelledConcat(ExprText(e), ws);
  }
}
