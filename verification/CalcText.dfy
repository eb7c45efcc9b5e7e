/** Texts the calculator meets: printed expressions, printed numbers, and command lines that were
    cut into words and joined again (kernel/shell.c). */
module CalcText {
  import opened Basics
  import opened LibString
  import opened Calc
  import opened CalcGrammar
  import opened Words

  // ---------- Printing expressions ----------

  /** Expressions as a user thinks of them. */
  datatype Ast = Lit(n: nat) | Neg(a: Ast) | Bin(l: Ast, op: char, r: Ast)

  predicate Additive(a: Ast) {
    a.Bin? && (a.op == '+' || a.op == '-')
  }

  predicate Multiplicative(a: Ast) {
    a.Bin? && !Additive(a)
  }

  predicate AstOk(a: Ast) {
    match a
    case Lit(_) => true
    case Neg(b) => AstOk(b)
    case Bin(l, op, r) => (op == '+' || op == '-' || op == '*' || op == '/') && AstOk(l) && AstOk(r)
  }

  /** Printing where an expression, a term or a factor is expected: parentheses appear only around
      operations that bind less tightly than their place asks for. */
  function PrintExpr(a: Ast): string
    decreases a, if Additive(a) then 0 else if a.Bin? then 1 else 2
  {
    if Additive(a) then PrintExpr(a.l) + [a.op] + PrintTerm(a.r) else PrintTerm(a)
  }

  function PrintTerm(a: Ast): string
    decreases a, if Additive(a) then 2 else if a.Bin? then 0 else 1
  {
    if Multiplicative(a) then PrintTerm(a.l) + [a.op] + PrintFactor(a.r) else PrintFactor(a)
  }

  function PrintFactor(a: Ast): string
    decreases a, if Additive(a) then 1 else if a.Bin? then 2 else 0
  {
    match a
    case Lit(n) => Dec(n)
    case Neg(b) => "-" + PrintFactor(b)
    case Bin(_, _, _) => "(" + PrintExpr(a) + ")"
  }

  /** The value of an expression tree: plain arithmetic, division toward zero. */
  ghost function AstMath(a: Ast): Option<int> {
    match a
    case Lit(n) => Some(n)
    case Neg(b) => var v := AstMath(b); if v.None? then None else Some(-v.value)
    case Bin(l, op, r) =>
      var x, y := AstMath(l), AstMath(r);
      if x.None? || y.None? then None
      else if op == '+' then Some(x.value + y.value)
      else if op == '-' then Some(x.value - y.value)
      else if op == '*' then Some(x.value * y.value)
      else if y.value == 0 then None
      else Some(Quotient(x.value, y.value))
  }

  /** Every intermediate value fits 32 bits; of minus signs in a row, the value behind them and the
      result. */
  ghost predicate AstWithin(a: Ast)
    decreases a, 0
  {
    InRange(AstMath(a)) && match a
    case Lit(_) => true
    case Neg(b) => BehindSigns(b)
    case Bin(l, _, r) => AstWithin(l) && AstWithin(r)
  }

  ghost predicate BehindSigns(a: Ast)
    decreases a, 1
  {
    if a.Neg? then BehindSigns(a.a) else AstWithin(a)
  }

  /** The derivation of the printed text. */
  function ExprOf(a: Ast): ExprTree
    decreases a, if Additive(a) then 0 else if a.Bin? then 1 else 2
  {
    if Additive(a) then Sum(ExprOf(a.l), "", a.op, TermOf(a.r)) else OneTerm(TermOf(a))
  }

  function TermOf(a: Ast): TermTree
    decreases a, if Additive(a) then 2 else if a.Bin? then 0 else 1
  {
    if Multiplicative(a) then Product(TermOf(a.l), "", a.op, FactorOf(a.r)) else OneFactor(FactorOf(a))
  }

  function FactorOf(a: Ast): FactorTree
    decreases a, if Additive(a) then 1 else if a.Bin? then 2 else 0
  {
    match a
    case Lit(n) => Number("", Dec(n))
    case Neg(b) => Signed("", '-', FactorOf(b))
    case Bin(_, _, _) => Paren("", ExprOf(a), "")
  }

  lemma {:induction false} ExprOfFacts(a: Ast)
    requires AstOk(a)
    ensures ExprOk(ExprOf(a)) && ExprText(ExprOf(a)) == PrintExpr(a) && ExprMath(ExprOf(a)) == AstMath(a)
    decreases a, if Additive(a) then 0 else if a.Bin? then 1 else 2
  {
    if Additive(a) {
      ExprOfFacts(a.l);
      TermOfFacts(a.r);
      assert "" + [a.op] + TermText(TermOf(a.r)) == [a.op] + PrintTerm(a.r);
    } else {
      TermOfFacts(a);
    }
  }

  lemma {:induction false} NoSpaces()
    ensures Spaces("")
  {
  }

  lemma {:induction false} TermOfFacts(a: Ast)
    requires AstOk(a)
    ensures TermOk(TermOf(a)) && TermText(TermOf(a)) == PrintTerm(a) && TermMath(TermOf(a)) == AstMath(a)
    decreases a, if Additive(a) then 2 else if a.Bin? then 0 else 1
  {
    if Multiplicative(a) {
      hide FactorOf, FactorText, PrintFactor, IsQuotient, Quotient, AllDigits, Spaces;
      TermOfFacts(a.l);
      FactorOfFacts(a.r);
      assert "" + [a.op] == [a.op];
      NoSpaces();
    } else {
      FactorOfFacts(a);
    }
  }

  lemma {:induction false} LitFacts(n: nat)
    ensures FactorOk(Number("", Dec(n))) && FactorText(Number("", Dec(n))) == Dec(n)
    ensures FactorMath(Number("", Dec(n))) == Some(n)
  {
    var digits := Dec(n);
    NumeralOfDec(n);
    NoSpaces();
    hide Dec, Numeral, ZeroToNine, AllDigits, Spaces;
    assert FactorText(Number("", digits)) == "" + digits == digits;
  }

  lemma {:induction false} FactorOfFacts(a: Ast)
    requires AstOk(a)
    ensures FactorOk(FactorOf(a)) && FactorText(FactorOf(a)) == PrintFactor(a) && FactorMath(FactorOf(a)) == AstMath(a)
    decreases a, if Additive(a) then 1 else if a.Bin? then 2 else 0
  {
    hide Dec, Numeral, AllDigits;
    match a
    case Lit(n) => LitFacts(n);
    case Neg(b) =>
      FactorOfFacts(b);
      assert "" + ['-'] + FactorText(FactorOf(b)) == "-" + PrintFactor(b);
    case Bin(_, _, _) =>
      ExprOfFacts(a);
      assert "" + "(" + PrintExpr(a) + ("" + ")") == "(" + PrintExpr(a) + ")";
  }

  /** Staying within 32 bits means the same for the tree and for the derivation. */
  lemma {:induction false} ExprOfWithin(a: Ast)
    requires AstOk(a)
    ensures ExprWithin(ExprOf(a)) <==> AstWithin(a)
    decreases a, if Additive(a) then 0 else if a.Bin? then 1 else 2
  {
    hide ExprText, PrintExpr;
    if Additive(a) {
      ExprOfWithin(a.l);
      TermOfWithin(a.r);
      ExprOfFacts(a);
    } else {
      TermOfWithin(a);
    }
  }

  lemma {:induction false} TermOfWithin(a: Ast)
    requires AstOk(a)
    ensures TermWithin(TermOf(a)) <==> AstWithin(a)
    decreases a, if Additive(a) then 2 else if a.Bin? then 0 else 1
  {
    hide TermText, PrintTerm;
    if Multiplicative(a) {
      TermOfWithin(a.l);
      FactorOfWithin(a.r);
      TermOfFacts(a);
    } else {
      FactorOfWithin(a);
    }
  }

  lemma {:induction false} FactorOfWithin(a: Ast)
    requires AstOk(a)
    ensures FactorWithin(FactorOf(a)) <==> AstWithin(a)
    ensures CoreWithin(FactorOf(a)) <==> BehindSigns(a)
    decreases a, if Additive(a) then 1 else if a.Bin? then 2 else 0
  {
    hide FactorText, PrintFactor, FactorMath, AstMath, InRange;
    FactorOfFacts(a);
    match a
    case Lit(n) => LitWithin(n);
    case Neg(b) => FactorOfWithin(b);
    case Bin(_, _, _) =>
      ExprOfWithin(a);
      assert AstWithin(a) ==> InRange(AstMath(a));
  }

  lemma {:induction false} LitWithin(n: nat)
    ensures CoreWithin(FactorOf(Lit(n))) <==> InRange(FactorMath(FactorOf(Lit(n))))
  {
  }

  /** Printing an expression and evaluating the text gives the value of the expression exactly if every
      intermediate value fits 32 bits; where they do, a division by zero is rejected. */
  lemma {:induction false} PrintThenEvaluate(a: Ast)
    requires AstOk(a)
    ensures forall v :: Evaluate(PrintExpr(a)) == Accepted(v) <==> AstMath(a) == Some(v) && AstWithin(a)
    ensures AstMath(a) == None ==> Evaluate(PrintExpr(a)) in {Rejected, Undefined}
    ensures AstMath(a).Some? && !AstWithin(a) ==> Evaluate(PrintExpr(a)) == Undefined
    ensures Evaluate(PrintExpr(a)) == VerdictOf(ExprVal(ExprOf(a)))
  {
    hide Evaluate, PrintExpr;
    ExprOfFacts(a);
    ExprOfWithin(a);
    ExprValIsMath(ExprOf(a));
    assert PrintExpr(a) + "" == PrintExpr(a);
    EvaluateComplete(ExprOf(a), "");
  }

  // ---------- Printing numbers ----------

  /** shell_print_signed: the magnitude is computed in unsigned arithmetic. */
  function ShowSigned(v: int): string
    requires Fits32(v)
  {
    if v < 0 then "-" + Dec(-(v + 1) + 1) else Dec(v)
  }

  /** A printed number is read back by the calculator - except for the smallest one, whose
      magnitude does not fit. */
  lemma {:induction false} PrintedNumberReadsBack(v: int)
    requires Fits32(v)
    ensures Evaluate(ShowSigned(v)) == if v == -0x8000_0000 then Undefined else Accepted(v)
  {
    var n := if v < 0 then -v else v;
    var a := if v < 0 then Neg(Lit(n)) else Lit(n);
    DecimalOfDec(n);
    assert PrintFactor(Lit(n)) == Dec(n);
    assert PrintExpr(a) == PrintTerm(a) == PrintFactor(a) == ShowSigned(v);
    var f := FactorOf(a);
    assert ExprOf(a) == OneTerm(OneFactor(f)) && CoreVal(FactorOf(Lit(n))) == Clamp(n);
    assert ExprVal(ExprOf(a)) == TermVal(OneFactor(f)) == FactorVal(f);
    assert !Odd(FactorOf(Lit(n))) && Odd(f) == (v < 0) && CoreVal(f) == CoreVal(FactorOf(Lit(n)));
    assert FactorVal(f) == if v < 0 then NegVal(Clamp(n)) else Clamp(n);
    hide Evaluate, ExprVal, PrintExpr, ExprOf;
    PrintThenEvaluate(a);
  }

  /** A printed number is a minus sign where it is negative and at most ten digits; atoi reads every
      one back. */
  lemma {:induction false} PrintedNumberIsPlain(v: int)
    requires -2147483648 <= v <= 2147483647
    ensures AtoiValue(ShowSigned(v)) == v && |ShowSigned(v)| <= (if v < 0 then 11 else 10)
    ensures ShowSigned(v)[0] == '-' <==> v < 0
    ensures ZeroToNine(if v < 0 then ShowSigned(v)[1..] else ShowSigned(v))
  {
    var n := if v < 0 then -v else v;
    AtoiOfDec("", n, "");
    NumeralOfDec(n);
    TenDigits(n);
    assert "" + (Dec(n) + "") == Dec(n) && "" + ("-" + (Dec(n) + "")) == "-" + Dec(n);
  }

  /** shell_print_signed, as the text it puts on the screen. */
  method PrintSigned(value: int, buffer: array<char>) returns (text: string)
    requires Fits32(value) && buffer.Length > 10
    modifies buffer
    ensures text == ShowSigned(value)
  {
    if value < 0 {
      var magnitude := -(value + 1) + 1;
      U32ToDec(magnitude, buffer);
      text := "-" + CString(buffer[..]);
      return;
    }
    U32ToDec(value, buffer);
    text := CString(buffer[..]);
  }

  // ---------- The parser does not see how spaces are laid out ----------

  /** Parses that agree up to spaces. */
  ghost predicate Same(p: Parse, q: Parse) {
    match p
    case Done(v, r) => q.Done? && q.value == v && WordsOf(r) == WordsOf(q.rest)
    case Fail(z) => q == Fail(z)
    case Overflow => q == Overflow
  }

  lemma {:induction false} PeekAlike(s: string, s': string)
    requires Alike(s, s')
    ensures !Blank(s) ==> Peek(s) == Peek(s')
    ensures IsDigit(Peek(s)) <==> IsDigit(Peek(s'))
    ensures forall ch :: ch in "+-*/()" ==> (Peek(s) == ch <==> Peek(s') == ch)
  {
    if !Blank(s) {
      StepAlike(s, s');
    }
  }

  lemma {:induction false} DigitsAlike(s: string, s': string, v: int)
    requires Alike(s, s')
    ensures Same(Digits(s, v), Digits(s', v))
    decreases |s|
  {
    PeekAlike(s, s');
    if IsDigit(Peek(s)) {
      StepAlike(s, s');
      if Fits32(v * 10 + DigitValue(s[0])) {
        DigitsAlike(s[1..], s'[1..], v * 10 + DigitValue(s[0]));
      }
    }
  }

  lemma {:induction false} SignsAlike(s: string, s': string, negative: bool)
    requires Alike(s, s')
    ensures Signs(s, negative).0 == Signs(s', negative).0
    ensures Alike(Signs(s, negative).1, Signs(s', negative).1)
    decreases |s|
  {
    PeekAlike(s, s');
    if Peek(s) == '+' || Peek(s) == '-' {
      StepAlike(s, s');
      SkipAlike(s[1..], s'[1..]);
      SignsAlike(SkipSpaces(s[1..]), SkipSpaces(s'[1..]), negative != (s[0] == '-'));
    }
  }

  lemma {:induction false} FactorAlike(s: string, s': string)
    requires WordsOf(s) == WordsOf(s')
    ensures Same(Factor(s), Factor(s'))
    decreases |s|, 0
  {
    hide WordsOf, Digits, Signs, SkipSpaces;
    SkipAlike(s, s');
    SignsAlike(SkipSpaces(s), SkipSpaces(s'), false);
    var (n, t) := Signs(SkipSpaces(s), false);
    var (n', t') := Signs(SkipSpaces(s'), false);
    PeekAlike(t, t');
    if Peek(t) == '(' {
      StepAlike(t, t');
      ExpressionAlike(t[1..], t'[1..]);
      if Expression(t[1..]).Done? {
        CloseAlike(Expression(t[1..]).rest, Expression(t'[1..]).rest);
      }
    } else {
      DigitsAlike(t, t', 0);
    }
  }

  lemma {:induction false} CloseAlike(r: string, r': string)
    requires WordsOf(r) == WordsOf(r')
    ensures var u, u' := SkipSpaces(r), SkipSpaces(r');
            && (Peek(u) == ')' <==> Peek(u') == ')')
            && (Peek(u) == ')' ==> WordsOf(u[1..]) == WordsOf(u'[1..]))
  {
    SkipAlike(r, r');
    var u, u' := SkipSpaces(r), SkipSpaces(r');
    PeekAlike(u, u');
    if Peek(u) == ')' {
      StepAlike(u, u');
    }
  }

  /** The next operator, or its absence, side by side. */
  lemma {:induction false} OperatorAlike(s: string, s': string)
    requires WordsOf(s) == WordsOf(s')
    ensures var t, t' := SkipSpaces(s), SkipSpaces(s');
            && WordsOf(t) == WordsOf(t')
            && (forall ch :: ch in "+-*/" ==> (Peek(t) == ch <==> Peek(t') == ch))
            && (Peek(t) in "+-*/" ==> Peek(t) == Peek(t') && WordsOf(t[1..]) == WordsOf(t'[1..]))
  {
    SkipAlike(s, s');
    var t, t' := SkipSpaces(s), SkipSpaces(s');
    PeekAlike(t, t');
    if Peek(t) in "+-*/" {
      StepAlike(t, t');
    }
  }

  lemma {:induction false} TermAlike(s: string, s': string)
    requires WordsOf(s) == WordsOf(s')
    ensures Same(Term(s), Term(s'))
    decreases |s|, 1
  {
    FactorAlike(s, s');
    if Factor(s).Done? {
      TermLoopAlike(Factor(s).value, Factor(s).rest, Factor(s').rest);
    }
  }

  lemma {:induction false} TermLoopAlike(v: int, s: string, s': string)
    requires WordsOf(s) == WordsOf(s')
    ensures Same(TermLoop(v, s), TermLoop(v, s'))
    decreases |s|, 3
  {
    hide WordsOf, SkipSpaces, Factor;
    OperatorAlike(s, s');
    var t, t' := SkipSpaces(s), SkipSpaces(s');
    assert '*' in "+-*/" && '/' in "+-*/";
    if Peek(t) == '*' || Peek(t) == '/' {
      FactorAlike(t[1..], t'[1..]);
      var p, p' := Factor(t[1..]), Factor(t'[1..]);
      if p.Done? && Multiply(v, t[0], p.value, p.rest).Done? {
        TermLoopAlike(Multiply(v, t[0], p.value, p.rest).value, p.rest, p'.rest);
      }
    }
  }

  lemma {:induction false} ExpressionAlike(s: string, s': string)
    requires WordsOf(s) == WordsOf(s')
    ensures Same(Expression(s), Expression(s'))
    decreases |s|, 2
  {
    TermAlike(s, s');
    if Term(s).Done? {
      ExpressionLoopAlike(Term(s).value, Term(s).rest, Term(s').rest);
    }
  }

  lemma {:induction false} ExpressionLoopAlike(v: int, s: string, s': string)
    requires WordsOf(s) == WordsOf(s')
    ensures Same(ExpressionLoop(v, s), ExpressionLoop(v, s'))
    decreases |s|, 3
  {
    hide WordsOf, SkipSpaces, Term;
    OperatorAlike(s, s');
    var t, t' := SkipSpaces(s), SkipSpaces(s');
    assert '+' in "+-*/" && '-' in "+-*/";
    if Peek(t) == '+' || Peek(t) == '-' {
      TermAlike(t[1..], t'[1..]);
      var p, p' := Term(t[1..]), Term(t'[1..]);
      if p.Done? && Add(v, t[0], p.value, p.rest).Done? {
        ExpressionLoopAlike(Add(v, t[0], p.value, p.rest).value, p.rest, p'.rest);
      }
    }
  }

  /** Only the words of a text matter to the calculator. */
  lemma {:induction false} EvaluateAlike(s: string, s': string)
    requires WordsOf(s) == WordsOf(s')
    ensures Evaluate(s) == Evaluate(s')
  {
    ExpressionAlike(s, s');
    if Expression(s).Done? {
      SkipAlike(Expression(s).rest, Expression(s').rest);
      AllSpaces(Expression(s).rest);
      AllSpaces(Expression(s').rest);
    }
  }

  lemma {:induction false} AllSpaces(s: string)
    ensures SkipSpaces(s) == "" <==> WordsOf(s) == []
  {
    WordsAfterSpaces(s);
  }

  /** The argument app_calculator evaluates: the words after the first, joined again. */
  function CalcArgument(line: string): string {
    var ws := WordsOf(line);
    Joined(if ws == [] then [] else if |ws| <= ARG_MAX then ws[1..] else ws[1..ARG_MAX])
  }

  /** Of a longer line the first 16 words count, the first of them being the command. */
  lemma {:induction false} LongLine(line: string)
    requires |WordsOf(line)| > 16
    ensures CalcArgument(line) == Joined(WordsOf(line)[..16][1..])
  {
  }

  /** `calc EXPRESSION`, with at most 16 words in all and perhaps spaces in front: evaluating the joined
      words gives what evaluating the typed text gives, and the joined text fits the expression buffer. */
  lemma {:induction false} CalcLine(lead: string, command: string, expression: string)
    requires Spaces(lead) && IsWord(command) && Blank(expression) && |WordsOf(expression)| < ARG_MAX
    requires |lead + (command + expression)| < INPUT_MAX
    ensures Evaluate(CalcArgument(lead + (command + expression))) == Evaluate(expression)
    ensures |CalcArgument(lead + (command + expression))| < INPUT_MAX
  {
    hide Evaluate;
    var line := command + expression;
    SkipsSpaces(lead, line);
    WordsAfterSpaces(lead + line);
    WordsAfterSpaces(line);
    WordFirst(command, expression);
    var ws := WordsOf(expression);
    assert ([command] + ws)[1..] == ws;
    WordsOfJoined(ws);
    JoinedLength(expression);
    EvaluateAlike(Joined(ws), expression);
  }

  /** A `calc` line as typed: tokenized in place, its words joined again, and evaluated. */
  method CalcCommand(line: array<char>, ghost text: string) returns (accepted: bool, result: int32)
    requires Holds(line[..], text, 0) && |WordsOf(text)| > 1 && |text| < INPUT_MAX
    requires Evaluate(CalcArgument(text)) != Undefined
    modifies line
    ensures accepted == Evaluate(CalcArgument(text)).Accepted?
    ensures accepted ==> Evaluate(CalcArgument(text)) == Accepted(result as int)
  {
    hide WordsOf, Evaluate, Joined, CString;
    var positions := Tokenize(line, ARG_MAX, text);
    var argv := seq(|positions|, k requires 0 <= k < |positions| && positions[k] <= line.Length reads line =>
      CString(line[positions[k]..]));
    ghost var words := WordsOf(text);
    assert argv == words[..|argv|];
    assert words[..|words|] == words;
    forall k | 0 <= k < |argv|
      ensures '\0' !in argv[k]
    {
      NoNulInCString(line[positions[k]..]);
    }
    var expression := new char[INPUT_MAX];
    JoinArgs(1, argv, expression, INPUT_MAX);
    assert Joined(argv[1..]) == CalcArgument(text);
    ArgumentLength(text);
    JoinedNoNul(argv[1..]);
    accepted, result := CalcEvaluate(CString(expression[..]));
  }

  lemma {:induction false} NoNulInCString(b: seq<char>)
    ensures '\0' !in CString(b)
  {
    if b != [] && b[0] != '\0' {
      NoNulInCString(b[1..]);
    }
  }

  /** A shorter list of words is not longer when joined. */
  lemma {:induction false} FewerWords(ws: seq<string>, from: nat, to: nat)
    requires from <= to <= |ws|
    ensures |Joined(ws[from..to])| <= |Joined(ws)|
  {
    if to < |ws| {
      var p := ws[..|ws| - 1];
      assert p[from..to] == ws[from..to] && ws == p + [ws[|ws| - 1]];
      FewerWords(p, from, to);
      if p != [] {
        JoinedSnoc(p, ws[|ws| - 1]);
      }
    } else if from > 0 {
      assert ws[1..][from - 1..to - 1] == ws[from..to];
      FewerWords(ws[1..], from - 1, to - 1);
    } else {
      assert ws[from..to] == ws;
    }
  }

  lemma {:induction false} ArgumentLength(text: string)
    ensures |CalcArgument(text)| <= |text|
  {
    assert Joined([]) == "";
    hide WordsOf, Joined;
    var ws := WordsOf(text);
    JoinedLength(text);
    if ws != [] {
      var to := if |ws| <= ARG_MAX then |ws| else ARG_MAX;
      assert ws[1..to] == if |ws| <= ARG_MAX then ws[1..] else ws[1..ARG_MAX];
      FewerWords(ws, 1, to);
    }
  }
}
