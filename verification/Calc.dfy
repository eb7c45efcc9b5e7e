/** The shell's calculator (kernel/shell.c): a parser that evaluates as it reads. */
module Calc {
  import opened Basics
  import opened LibString

  /** C division: toward zero. */
  function TruncDiv(a: int, b: int): int
    requires b != 0
  {
    var q := (if a < 0 then -a else a) / (if b < 0 then -b else b);
    if (a < 0) == (b < 0) then q else -q
  }

  /** The law of division toward zero: the remainder is smaller than the divisor and has the sign of
      the dividend. */
  ghost predicate IsQuotient(a: int, b: int, q: int) {
    var r := a - b * q;
    (if r < 0 then -r else r) < (if b < 0 then -b else b) && (r == 0 || (r < 0) == (a < 0))
  }

  lemma {:induction false} Negations(b: int, k: int)
    ensures (-b) * k == -(b * k) && b * (-k) == -(b * k) && (-b) * (-k) == b * k
  {
  }

  lemma {:induction false} TruncDivLaw(a: int, b: int)
    requires b != 0
    ensures IsQuotient(a, b, TruncDiv(a, b))
  {
    var x, y := if a < 0 then -a else a, if b < 0 then -b else b;
    var k, q := x / y, TruncDiv(a, b);
    assert q == if (a < 0) == (b < 0) then k else -k;
    Negations(y, k);
    assert b * q == if a < 0 then -(y * k) else y * k;
    assert x == y * k + x % y;
    hide TruncDiv;
  }

  lemma {:induction false} Multiple(b: int, d: int)
    ensures d > 0 && b > 0 ==> b * d >= b
    ensures d > 0 && b < 0 ==> b * d <= b
    ensures d < 0 && b > 0 ==> b * d <= -b
    ensures d < 0 && b < 0 ==> b * d >= -b
  {
  }

  /** The law has one solution. */
  lemma {:induction false} QuotientUnique(a: int, b: int, p: int, q: int)
    requires b != 0 && IsQuotient(a, b, p) && IsQuotient(a, b, q)
    ensures p == q
  {
    assert b * p - b * q == b * (p - q);
    Multiple(b, p - q);
  }

  /** First character of what is left to read; NUL at the end. */
  function Peek(s: string): char {
    if s == "" then '\0' else s[0]
  }

  /** A step of the parser: a value and the text after it; a failure, perhaps a division by zero;
      or an intermediate that int32_t cannot hold, after which C promises nothing. */
  datatype Parse = Done(value: int, rest: string) | Fail(byZero: bool) | Overflow

  function Checked(x: int, rest: string): Parse {
    if Fits32(x) then Done(x, rest) else Overflow
  }

  /** The sign loop: the parity of minus signs, and the text after them. */
  function Signs(s: string, negative: bool): (r: (bool, string))
    ensures |r.1| <= |s|
    decreases |s|
  {
    if Peek(s) == '+' || Peek(s) == '-' then Signs(SkipSpaces(s[1..]), negative != (s[0] == '-'))
    else (negative, s)
  }

  function Digits(s: string, value: int): (r: Parse)
    ensures !r.Fail? && (r.Done? ==> |r.rest| <= |s|)
    ensures r.Done? && s != "" && IsDigit(s[0]) ==> |r.rest| < |s|
    decreases |s|
  {
    if s == "" || !IsDigit(s[0]) then Done(value, s)
    else
      var next := value * 10 + DigitValue(s[0]);
      if Fits32(next) then Digits(s[1..], next) else Overflow
  }

  function Negated(negative: bool, p: Parse): Parse {
    if negative && p.Done? then Checked(-p.value, p.rest) else p
  }

  /** calc_parse_factor after its sign loop. */
  function Atom(negative: bool, t: string): (r: Parse)
    ensures r.Done? ==> |r.rest| < |t|
    decreases |t|, 0
  {
    if Peek(t) == '(' then
      var inner := Expression(t[1..]);
      if !inner.Done? then inner
      else
        var u := SkipSpaces(inner.rest);
        if Peek(u) == ')' then Negated(negative, Done(inner.value, u[1..])) else Fail(false)
    else if !IsDigit(Peek(t)) then Fail(false)
    else Negated(negative, Digits(t, 0))
  }

  /** calc_parse_factor */
  function Factor(s: string): (r: Parse)
    ensures r.Done? ==> |r.rest| < |s|
    decreases |s|, 1
  {
    var (negative, t) := Signs(SkipSpaces(s), false);
    Atom(negative, t)
  }

  /** calc_parse_term */
  function Term(s: string): (r: Parse)
    ensures r.Done? ==> |r.rest| < |s|
    decreases |s|, 2
  {
    var first := Factor(s);
    if first.Done? then TermLoop(first.value, first.rest) else first
  }

  function Multiply(v: int, op: char, w: int, rest: string): Parse {
    if op == '*' then Checked(v * w, rest)
    else if w == 0 then Fail(true)
    else Checked(TruncDiv(v, w), rest)
  }

  function TermLoop(v: int, s: string): (r: Parse)
    ensures r.Done? ==> |r.rest| <= |s|
    decreases |s|, 4
  {
    var t := SkipSpaces(s);
    if Peek(t) != '*' && Peek(t) != '/' then Done(v, t)
    else
      var rhs := Factor(t[1..]);
      if !rhs.Done? then rhs
      else
        var p := Multiply(v, t[0], rhs.value, rhs.rest);
        if p.Done? then TermLoop(p.value, p.rest) else p
  }

  /** calc_parse_expression */
  function Expression(s: string): (r: Parse)
    ensures r.Done? ==> |r.rest| < |s|
    decreases |s|, 3
  {
    var first := Term(s);
    if first.Done? then ExpressionLoop(first.value, first.rest) else first
  }

  function Add(v: int, op: char, w: int, rest: string): Parse {
    Checked(if op == '+' then v + w else v - w, rest)
  }

  function ExpressionLoop(v: int, s: string): (r: Parse)
    ensures r.Done? ==> |r.rest| <= |s|
    decreases |s|, 4
  {
    var t := SkipSpaces(s);
    if Peek(t) != '+' && Peek(t) != '-' then Done(v, t)
    else
      var rhs := Term(t[1..]);
      if !rhs.Done? then rhs
      else
        var p := Add(v, t[0], rhs.value, rhs.rest);
        if p.Done? then ExpressionLoop(p.value, p.rest) else p
  }

  datatype Verdict = Accepted(value: int) | Rejected | Undefined

  /** calc_evaluate */
  function Evaluate(s: string): Verdict {
    match Expression(s)
    case Done(v, r) => if SkipSpaces(r) == "" then Accepted(v) else Rejected
    case Fail(_) => Rejected
    case Overflow => Undefined
  }

  // ---------- The program itself ----------

  /** calc_state_t over its text; reading at the end yields the NUL. */
  class CalcState {
    const text: string
    var cursor: nat
    var ok: bool
    var divideByZero: bool

    ghost predicate Valid()
      reads this
    {
      '\0' !in text && cursor <= |text|
    }

    function Rest(): string
      requires cursor <= |text|
      reads this
    {
      text[cursor..]
    }

    function Current(): (ch: char)
      requires cursor <= |text|
      reads this
    {
      if cursor < |text| then text[cursor] else '\0'
    }

    constructor (expression: string)
      requires '\0' !in expression
      ensures Valid() && Rest() == expression && ok && !divideByZero && text == expression
    {
      text := expression;
      cursor, ok, divideByZero := 0, true, false;
    }

    method Skip()
      requires Valid()
      modifies this`cursor
      ensures Valid() && Rest() == SkipSpaces(old(Rest()))
    {
      while IsSpace(Current())
        invariant Valid() && SkipSpaces(Rest()) == SkipSpaces(old(Rest()))
        decreases |text| - cursor
      {
        assert Rest()[1..] == text[cursor + 1..];
        cursor := cursor + 1;
      }
    }

    /** The state after a parsing function: the outcome it stands for, zero where it failed, and the
        flag for division by zero, raised or as it was. */
    ghost predicate After(p: Parse, value: int32, flag: bool)
      reads this
    {
      && Valid()
      && ok == p.Done?
      && (p.Done? ==> value as int == p.value && Rest() == p.rest && divideByZero == flag)
      && (!p.Done? ==> value == 0)
      && (p.Fail? ==> divideByZero == (flag || p.byZero))
    }

    /** Moves past the current character. */
    method Advance()
      requires cursor < |text|
      modifies this`cursor
      ensures cursor == old(cursor) + 1 && Rest() == old(Rest())[1..]
    {
      cursor := cursor + 1;
    }

    /** The sign loop of calc_parse_factor. */
    method ParseSigns() returns (negative: bool)
      requires Valid()
      modifies this`cursor
      ensures Valid() && cursor >= old(cursor)
      ensures (negative, Rest()) == Signs(SkipSpaces(old(Rest())), false)
    {
      negative := false;
      Skip();
      while Current() == '+' || Current() == '-'
        invariant Valid() && cursor >= old(cursor)
        invariant Signs(Rest(), negative) == Signs(SkipSpaces(old(Rest())), false)
        decreases |text| - cursor
      {
        if Current() == '-' {
          negative := !negative;
        }
        Advance();
        Skip();
      }
    }

    /** The digit loop of calc_parse_factor. */
    method ParseDigits() returns (value: int32)
      requires Valid() && !Digits(Rest(), 0).Overflow?
      modifies this`cursor
      ensures Valid() && value >= 0 && Digits(old(Rest()), 0) == Done(value as int, Rest())
    {
      value := 0;
      while '0' <= Current() <= '9'
        invariant Valid() && value >= 0
        invariant Digits(Rest(), value as int) == Digits(old(Rest()), 0)
        decreases |text| - cursor
      {
        value := value * 10 + DigitValue(Current()) as int32;
        Advance();
      }
    }

    /** calc_parse_factor */
    method ParseFactor() returns (value: int32)
      requires Valid() && ok && !Factor(Rest()).Overflow?
      modifies this
      ensures After(Factor(old(Rest())), value, old(divideByZero))
      decreases |text| - cursor, 1
    {
      hide Atom, Signs, SkipSpaces;
      var negative := ParseSigns();
      value := ParseAtom(negative);
    }

    /** calc_parse_factor after its sign loop. */
    method ParseAtom(negative: bool) returns (value: int32)
      requires Valid() && ok && !Atom(negative, Rest()).Overflow?
      modifies this
      ensures After(Atom(negative, old(Rest())), value, old(divideByZero))
      decreases |text| - cursor, 0
    {
      hide Term, Expression, Digits, SkipSpaces;
      if Current() == '(' {
        Advance();
        value := ParseExpression();
        Skip();
        if Current() != ')' {
          ok := false;
          return 0;
        }
        Advance();
        return if negative then -value else value;
      }
      if Current() < '0' || Current() > '9' {
        ok := false;
        return 0;
      }
      value := ParseDigits();
      return if negative then -value else value;
    }

    /** calc_parse_term */
    method ParseTerm() returns (value: int32)
      requires Valid() && ok && !Term(Rest()).Overflow?
      modifies this
      ensures After(Term(old(Rest())), value, old(divideByZero))
      decreases |text| - cursor, 2
    {
      hide Factor, ExpressionLoop, Expression, Signs, Digits, SkipSpaces;
      ghost var goal := Term(Rest());
      value := ParseFactor();
      while ok
        invariant ok ==> && Valid() && TermLoop(value as int, Rest()) == goal
                         && divideByZero == old(divideByZero) && |Rest()| < |old(Rest())|
        invariant !ok ==> After(goal, value, old(divideByZero))
        decreases ok, |text| - cursor
      {
        Skip();
        if Current() != '*' && Current() != '/' {
          break;
        }
        var op := Current();
        Advance();
        var rhs := ParseFactor();
        if !ok {
          return 0;
        }
        if op == '*' {
          value := value * rhs;
        } else {
          if rhs == 0 {
            ok := false;
            divideByZero := true;
            return 0;
          }
          value := TruncDiv(value as int, rhs as int) as int32;
        }
      }
    }

    /** calc_parse_expression */
    method ParseExpression() returns (value: int32)
      requires Valid() && ok && !Expression(Rest()).Overflow?
      modifies this
      ensures After(Expression(old(Rest())), value, old(divideByZero))
      decreases |text| - cursor, 3
    {
      hide Factor, TermLoop, Term, Signs, Digits, SkipSpaces;
      ghost var goal := Expression(Rest());
      value := ParseTerm();
      while ok
        invariant ok ==> && Valid() && ExpressionLoop(value as int, Rest()) == goal
                         && divideByZero == old(divideByZero) && |Rest()| < |old(Rest())|
        invariant !ok ==> After(goal, value, old(divideByZero))
        decreases ok, |text| - cursor
      {
        Skip();
        if Current() != '+' && Current() != '-' {
          break;
        }
        var op := Current();
        Advance();
        var rhs := ParseTerm();
        if !ok {
          return 0;
        }
        if op == '+' {
          value := value + rhs;
        } else {
          value := value - rhs;
        }
      }
    }
  }

  lemma {:induction false} EvaluateIs(s: string)
    ensures var p := Expression(s);
            && (p.Done? ==> Evaluate(s) == if SkipSpaces(p.rest) == "" then Accepted(p.value) else Rejected)
            && (p.Fail? ==> Evaluate(s) == Rejected)
            && (p.Overflow? ==> Evaluate(s) == Undefined)
  {
  }

  lemma {:induction false} EndOfText(text: string, at: nat)
    requires '\0' !in text && at <= |text|
    ensures at < |text| ==> text[at] != '\0'
    ensures text[at..] == "" <==> at == |text|
  {
  }

  /** calc_evaluate, on texts for which no intermediate overflows. */
  method CalcEvaluate(expression: string) returns (accepted: bool, result: int32)
    requires '\0' !in expression && Evaluate(expression) != Undefined
    ensures accepted == Evaluate(expression).Accepted?
    ensures accepted ==> Evaluate(expression) == Accepted(result as int)
  {
    hide Expression, SkipSpaces, Evaluate;
    EvaluateIs(expression);
    var state := new CalcState(expression);
    result := state.ParseExpression();
    var parsed := state.ok;
    state.Skip();
    EndOfText(expression, state.cursor);
    accepted := parsed && state.Current() == '\0';
  }
}
