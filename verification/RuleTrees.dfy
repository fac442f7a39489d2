/** The tree of a text: the one-pass evaluator computes, for every text and all inputs, the value of the text's
    tree, and the tree's own text is the given one up to white space and parentheses. */
module RuleTrees {
  import opened Results
  import opened Decimal
  import opened Sequences
  import opened RuleValues
  import opened RuleParser
  import opened RuleSyntax
  import opened RuleLexing
  import opened RuleGrammar

  // ----- the value of the tree -----

  /** What parsing should give when a value is known and `r` is left. */
  function Expected(value: Result<Value>, r: string): Parse {
    match value
    case Failed => Error
    case Ok(v) => Parsed(v, r)
  }

  /** What the evaluator should give for a tree. */
  function Valued(env: Env, t: Tree): Parse {
    match t
    case NoTree => Error
    case Tree(e, rest) => Expected(Eval(env, e), rest)
  }

  function ValuedList(env: Env, t: Trees): ParseList {
    match t
    case NoTrees => ListError
    case Trees(es, rest) =>
      match EvalAll(env, es)
      case Failed => ListError
      case Ok(values) => ParsedList(values, rest)
  }

  /** Nothing in the grammar goes on with an `x`; the scanner stops there in a hexadecimal number, of which it
      knows only the leading zero while `strtod` reads it all. */
  predicate Stuck(rest: string) {
    rest != [] && (rest[0] == 'x' || rest[0] == 'X')
  }

  /** The same outcome, or values that cannot matter because the text that is left is never accepted. */
  predicate Agree(p: Parse, q: Parse) {
    p == q || (p.Parsed? && q.Parsed? && p.rest == q.rest && Stuck(p.rest))
  }

  lemma StuckMatches(rest: string, token: string)
    requires Stuck(rest) && token != [] && token[0] != 'x' && token[0] != 'X'
    ensures SkipSpace(rest) == rest && Match(rest, token) == None
  {
    hide SkipSpace;
    if |token| <= |rest| {
      assert rest[..|token|][0] == rest[0];
    }
  }

  lemma {:induction false} StuckOperator(rest: string, ops: seq<Op>)
    requires Stuck(rest)
    ensures MatchOperator(rest, ops) == None
  {
    hide SkipSpace, Match;
    if ops != [] {
      TokenHead(ops[0]);
      StuckMatches(rest, Token(ops[0]));
      StuckOperator(rest, ops[1..]);
    }
  }

  lemma {:induction false} LevelAgrees(env: Env, level: nat, text: string)
    requires level <= LEVELS
    ensures Agree(ParseLevel(env, level, text), Valued(env, TreeLevel(level, text)))
    decreases |text|, 3 + LEVELS - level
  {
    hide ParseTail, TreeTail, ParseUnary, TreeUnary, Eval, Stuck;
    if level == LEVELS {
      UnaryAgrees(env, text);
    } else {
      LevelAgrees(env, level + 1, text);
      match TreeLevel(level + 1, text)
      case NoTree =>
      case Tree(left, rest) => TailAgrees(env, level, ParseLevel(env, level + 1, text), left, rest);
    }
  }

  /** The loop of a level on a parsed operand. */
  function Tailed(env: Env, level: nat, p: Parse): Parse
    requires level < LEVELS
  {
    match p
    case Error => Error
    case Parsed(v, rest) => ParseTail(env, level, v, rest)
  }

  /** Both operands of an operator. */
  function Combined(op: Op, p: Parse, q: Parse): Parse {
    if p.Error? || q.Error? then Error else Parsed(Combine(op, p.value, q.value), q.rest)
  }

  lemma {:induction false} TailAgrees(env: Env, level: nat, p: Parse, left: Expr, text: string)
    requires level < LEVELS && Agree(p, Expected(Eval(env, left), text))
    ensures Agree(Tailed(env, level, p), Valued(env, TreeTail(level, left, text)))
    decreases |text|, 0
  {
    hide MatchOperator, Operators, ParseLevel, TreeLevel, ParseTail, SkipSpace, Combine, Eval, Stuck;
    match MatchOperator(text, Operators(level))
    case None => TailEnds(env, level, p, left, text);
    case Some((op, rest)) =>
      NotStuck(text, Operators(level));
      LevelAgrees(env, level + 1, rest);
      var q := ParseLevel(env, level + 1, rest);
      TailGoesOn(env, level, p, text, op, rest);
      match TreeLevel(level + 1, rest)
      case NoTree =>
      case Tree(right, rest') =>
        EvalBinary(env, op, left, right);
        TailAgrees(env, level, Combined(op, p, q), Binary(op, left, right), rest');
  }

  lemma NotStuck(text: string, ops: seq<Op>)
    requires MatchOperator(text, ops).Some?
    ensures !Stuck(text)
  {
    hide MatchOperator, Stuck;
    if Stuck(text) {
      StuckOperator(text, ops);
    }
  }

  lemma TailEnds(env: Env, level: nat, p: Parse, left: Expr, text: string)
    requires level < LEVELS && MatchOperator(text, Operators(level)) == None
    requires Agree(p, Expected(Eval(env, left), text))
    ensures Agree(Tailed(env, level, p), Valued(env, TreeTail(level, left, text)))
  {
    hide MatchOperator, Operators, SkipSpace, Eval, Stuck;
    if Stuck(text) {
      StuckMatches(text, ")");
    }
  }

  lemma TailGoesOn(env: Env, level: nat, p: Parse, text: string, op: Op, rest: string)
    requires level < LEVELS && MatchOperator(text, Operators(level)) == Some((op, rest))
    requires p.Parsed? ==> p.rest == text
    ensures Tailed(env, level, p) == Tailed(env, level, Combined(op, p, ParseLevel(env, level + 1, rest)))
  {
    hide Combine, MatchOperator, Operators;
  }

  lemma EvalBinary(env: Env, op: Op, left: Expr, right: Expr)
    ensures Eval(env, Binary(op, left, right))
         == if Eval(env, left).Failed? || Eval(env, right).Failed? then Failed
            else Ok(Combine(op, Eval(env, left).value, Eval(env, right).value))
  {
    hide Combine, EvalAll, Apply, Strtod, Lookup, ProbeInput, Not, Negate, Truth;
  }

  lemma {:induction false} UnaryAgrees(env: Env, text: string)
    ensures Agree(ParseUnary(env, text), Valued(env, TreeUnary(text)))
    decreases |text|, 2
  {
    hide Match, ParsePrimaryAt, TreePrimary, SkipSpace, Not, Negate, Stuck;
    match Match(text, "!")
    case Some(rest) => UnaryAgrees(env, rest);
    case None =>
      match Match(text, "-")
      case Some(rest) => UnaryAgrees(env, rest);
      case None => PrimaryAgrees(env, SkipSpace(text));
  }

  lemma {:induction false} PrimaryAgrees(env: Env, s: string)
    ensures Agree(ParsePrimaryAt(env, s), Valued(env, TreePrimary(s)))
    decreases |s|, 1
  {
    hide Match, ParseLevel, TreeLevel, ParseNamed, TreeNamed, SkipSpace, Strtod, NumberEnd, Stuck, IsHex;
    if s != [] {
      match Match(s, "(")
      case Some(rest) =>
        LevelAgrees(env, 0, rest);
        ClosingAgrees(env, ParseLevel(env, 0, rest), TreeLevel(0, rest));
      case None =>
        if IsDigit(s[0]) || s[0] == '.' {
          StrtodOfLexeme(s);
        } else if IsIdentStart(s[0]) {
          NamedAgrees(env, s);
        }
    }
  }

  lemma ClosingAgrees(env: Env, p: Parse, t: Tree)
    requires Agree(p, Valued(env, t))
    ensures Closed(p) == Valued(env, ClosedTree(t))
  {
    hide Match, Eval, Stuck;
    if p.Parsed? && Stuck(p.rest) {
      StuckMatches(p.rest, ")");
    }
  }

  lemma {:induction false} NamedAgrees(env: Env, s: string)
    requires s != [] && IsIdentStart(s[0])
    ensures ParseNamed(env, s) == Valued(env, TreeNamed(s))
    decreases |s|, 0
  {
    hide Match, ParseCall, TreeCall, ParseProbe, TreeProbe, SkipSpace, IdentRun, Lookup, IsProbe, Eval;
    var n := IdentRun(s);
    var name, rest := s[..n], s[n..];
    LeafValues(env, name);
    if Match(rest, "(").Some? {
      var inside := Match(rest, "(").value;
      ProbeAgrees(env, name, inside);
      CallAgrees(env, name, inside);
    }
  }

  lemma LeafValues(env: Env, name: string)
    ensures Eval(env, NullConstant) == Ok(Null) && Eval(env, Input(name)) == Ok(Lookup(env, name))
    ensures Eval(env, Boolean(true)) == Ok(Number(1.0)) && Eval(env, Boolean(false)) == Ok(Number(0.0))
  {
  }

  lemma ProbeAgrees(env: Env, probe: string, text: string)
    ensures ParseProbe(env, probe, text) == Valued(env, TreeProbe(probe, text))
  {
    hide Match, SkipSpace, IdentRun, ProbeInput;
  }

  lemma {:induction false} CallAgrees(env: Env, name: string, text: string)
    ensures ParseCall(env, name, text) == Valued(env, TreeCall(name, text))
    decreases |text|, 5 + LEVELS
  {
    hide ParseArguments, TreeArguments, Apply, EvalAll;
    ArgumentsAgree(env, text);
  }

  lemma {:induction false} ArgumentsAgree(env: Env, text: string)
    ensures ParseArguments(env, text) == ValuedList(env, TreeArguments(text))
    decreases |text|, 4 + LEVELS, 1
  {
    hide Match, ParseArgumentList, TreeArgumentList;
    if Match(text, ")").None? {
      ArgumentListAgrees(env, text);
    }
  }

  lemma {:induction false} ArgumentListAgrees(env: Env, text: string)
    ensures ParseArgumentList(env, text) == ValuedList(env, TreeArgumentList(text))
    decreases |text|, 4 + LEVELS, 0
  {
    hide Match, ParseLevel, TreeLevel, Eval, Stuck;
    LevelAgrees(env, 0, text);
    match TreeLevel(0, text)
    case NoTree =>
    case Tree(e, rest) =>
      EvalOne(env, e);
      if Stuck(rest) {
        StuckMatches(rest, ")");
        StuckMatches(rest, ",");
      }
      match Match(rest, ")")
      case Some(_) =>
      case None =>
        match Match(rest, ",")
        case None =>
        case Some(rest') =>
          ArgumentListAgrees(env, rest');
          match TreeArgumentList(rest')
          case NoTrees =>
          case Trees(es, _) => EvalMore(env, e, es);
  }

  lemma EvalOne(env: Env, e: Expr)
    ensures EvalAll(env, [e]) == match Eval(env, e) case Failed => Failed case Ok(v) => Ok([v])
  {
    hide Eval;
    assert [e][1..] == [];
    assert EvalAll(env, []) == Ok([]);
    assert Eval(env, e).Ok? ==> [Eval(env, e).value] + [] == [Eval(env, e).value];
  }

  lemma EvalMore(env: Env, e: Expr, es: seq<Expr>)
    ensures EvalAll(env, [e] + es)
         == match Eval(env, e)
            case Failed => Failed
            case Ok(v) => match EvalAll(env, es) case Failed => Failed case Ok(values) => Ok([v] + values)
  {
    hide Eval;
    assert ([e] + es)[1..] == es;
  }

  // ----- numbers -----

  lemma {:induction false} RunAtLeast(s: string, k: nat)
    requires k <= |s| && forall i :: 0 <= i < k ==> IsDigit(s[i]) || s[i] == '.'
    ensures NumberRun(s) >= k
  {
    if k > 0 {
      RunAtLeast(s[1..], k - 1);
    }
  }

  lemma {:induction false} RunIsNumeric(s: string, i: nat)
    requires i < NumberRun(s)
    ensures IsDigit(s[i]) || s[i] == '.'
  {
    if i > 0 {
      RunIsNumeric(s[1..], i - 1);
    }
  }

  lemma {:induction false} DigitsCut(s: string, n: nat)
    requires DigitRun(s) <= n <= |s|
    ensures DigitRun(s[..n]) == DigitRun(s)
  {
    if n > 0 && IsDigit(s[0]) {
      assert s[..n][1..] == s[1..][..n - 1];
      DigitsCut(s[1..], n - 1);
    }
  }

  lemma FractionCut(s: string, n: nat)
    requires n <= |s| && (s != [] && s[0] == '.' ==> 1 + |FractionDigits(s)| <= n)
    ensures FractionDigits(s[..n]) == FractionDigits(s)
    ensures s[..n] != [] && s[..n][0] == '.' <==> s != [] && s[0] == '.'
  {
    hide DigitRun;
    if s != [] && s[0] == '.' {
      assert s[..n][1..] == s[1..][..n - 1];
      DigitsCut(s[1..], n - 1);
      var k := DigitRun(s[1..]);
      assert s[1..][..n - 1][..k] == s[1..][..k];
    }
  }

  lemma ExponentCut(s: string)
    ensures ExponentValue(s[..ExponentEnd(s)]) == ExponentValue(s)
  {
    hide DigitRun, NatValue;
    if s != [] && (s[0] == 'e' || s[0] == 'E') {
      var k := if 1 < |s| && (s[1] == '+' || s[1] == '-') then 2 else 1;
      var n := DigitRun(s[k..]);
      var cut := s[..k + n];
      assert ExponentEnd(s) == k + n;
      assert cut[k..] == s[k..][..n];
      DigitsCut(s[k..], n);
      assert s[k..][..n][..n] == s[k..][..n];
      if k == 1 && n > 0 {
        assert cut[1] == s[1];
      }
    } else {
      assert s[..0] == [];
    }
  }

  /** Where the fraction ends there is a point, or the run of digits and points ends too. */
  lemma MantissaEnds(s: string, end: nat)
    requires var after := s[DigitRun(s)..];
             end == if after != [] && after[0] == '.' then 1 + |FractionDigits(after)| else 0
    ensures var m := DigitRun(s) + end;
            m <= NumberRun(s) && (m < NumberRun(s) ==> s[m] == '.')
  {
    hide DigitRun, NumberRun;
    var w := DigitRun(s);
    var after := s[w..];
    var m := w + end;
    forall i | 0 <= i < m
      ensures IsDigit(s[i]) || s[i] == '.'
    {
      if i < w {
        assert s[..w][i] == s[i];
      } else if i > w {
        assert FractionDigits(after)[i - w - 1] == s[i];
      }
    }
    RunAtLeast(s, m);
    if m < NumberRun(s) {
      RunIsNumeric(s, m);
      if end > 0 {
        assert after[1..][|FractionDigits(after)|] == s[m];
      }
    }
  }

  /** The decimal value of a number depends on no more text than the scanner consumes. */
  lemma {:induction false} DecimalOfLexeme(s: string)
    ensures DecimalNumber(s) == DecimalNumber(s[..NumberEnd(s)])
  {
    hide DigitRun, NatValue, ExponentValue, Scale, FractionDigits, NumberEnd;
    LexemeParts(s);
  }

  lemma ZeroThenX(s: string)
    requires |s| > 1 && s[0] == '0' && (s[1] == 'x' || s[1] == 'X')
    ensures NumberEnd(s) == 1
  {
    assert NumberRun(s[1..]) == 0;
    assert s[1..][0] == s[1];
  }

  /** The value of a number depends on no more text than the scanner consumes, except that of a hexadecimal number,
      of which the scanner consumes the leading zero and leaves an `x` that is never accepted. */
  lemma {:induction false} StrtodOfLexeme(s: string)
    ensures !IsHex(s) ==> Strtod(s) == Strtod(s[..NumberEnd(s)])
    ensures IsHex(s) ==> NumberEnd(s) == 1 && Stuck(s[1..])
  {
    hide DecimalNumber, HexNumber, NumberEnd, IsHexDigit;
    DecimalOfLexeme(s);
    if |s| > 1 && s[0] == '0' && (s[1] == 'x' || s[1] == 'X') {
      ZeroThenX(s);
    }
  }

  /** The consumed text has the whole digits, the fraction and the exponent of the text. */
  lemma LexemeParts(s: string)
    ensures var t, w := s[..NumberEnd(s)], DigitRun(s);
            var f := FractionDigits(s[w..]);
            var end := if s[w..] != [] && s[w..][0] == '.' then 1 + |f| else 0;
            && DigitRun(t) == w && t[..w] == s[..w] && FractionDigits(t[w..]) == f
            && (t[w..] != [] && t[w..][0] == '.' <==> s[w..] != [] && s[w..][0] == '.')
            && end <= |t[w..]| && ExponentValue(t[w..][end..]) == ExponentValue(s[w..][end..])
  {
    hide DigitRun, NumberRun, ExponentValue, ExponentEnd, FractionDigits;
    var e, w, after := NumberEnd(s), DigitRun(s), s[DigitRun(s)..];
    var end := if after != [] && after[0] == '.' then 1 + |FractionDigits(after)| else 0;
    var m := w + end;
    MantissaEnds(s, end);
    DigitsCut(s, e);
    assert s[..e][w..] == after[..e - w];
    FractionCut(after, e - w);
    assert after[end..] == s[m..] && after[..e - w][end..] == s[m..e];
    ExponentBehind(s, m);
  }

  /** Behind the mantissa the consumed text has the same exponent. */
  lemma ExponentBehind(s: string, m: nat)
    requires m <= NumberRun(s) && (m < NumberRun(s) ==> s[m] == '.')
    ensures ExponentValue(s[m..NumberEnd(s)]) == ExponentValue(s[m..])
  {
    hide NumberRun, ExponentEnd;
    if m == NumberRun(s) {
      var x := s[m..];
      assert s[m..NumberEnd(s)] == x[..ExponentEnd(x)];
      ExponentCut(x);
    } else {
      assert s[m..][0] == '.' && s[m..NumberEnd(s)][0] == '.';
    }
  }

  // ----- the text of the tree -----

  predicate IsPunctuation(c: char) {
    IsSpace(c) || c == '(' || c == ')'
  }

  /** A text without white space and parentheses. */
  function Strip(s: string): string {
    if s == "" then "" else Kept(s[0]) + Strip(s[1..])
  }

  /** What stripping leaves of a character. */
  function Kept(c: char): string {
    if IsPunctuation(c) then "" else [c]
  }

  lemma StripCons(c: char, s: string)
    ensures Strip([c] + s) == Kept(c) + Strip(s)
  {
    assert ([c] + s)[1..] == s;
  }

  lemma {:induction false} StripTwo(a: string, b: string)
    ensures Strip(a + b) == Strip(a) + Strip(b)
  {
    hide Strip, Kept;
    if a == "" {
      assert a + b == b;
      NothingStripped();
    } else {
      var c, rest := a[0], a[1..];
      assert a == [c] + rest && a + b == [c] + (rest + b);
      StripCons(c, rest);
      StripCons(c, rest + b);
      StripTwo(rest, b);
      Associate(Kept(c), Strip(rest), Strip(b));
    }
  }

  lemma StripParts(s: string, n: nat)
    requires n <= |s|
    ensures Strip(s) == Strip(s[..n]) + Strip(s[n..])
  {
    hide Strip;
    var a, b := s[..n], s[n..];
    assert a + b == s;
    StripTwo(a, b);
  }

  lemma {:induction false} StripSkip(s: string)
    ensures Strip(SkipSpace(s)) == Strip(s)
  {
    if s != "" && IsSpace(s[0]) {
      StripSkip(s[1..]);
    }
  }

  lemma StripMatch(text: string, token: string)
    ensures match Match(text, token) case None => true case Some(rest) => Strip(text) == Strip(token) + Strip(rest)
  {
    hide SkipSpace, Strip;
    StripSkip(text);
    if |token| <= |SkipSpace(text)| {
      StripParts(SkipSpace(text), |token|);
    }
  }

  lemma {:induction false} StripOperator(text: string, ops: seq<Op>)
    ensures match MatchOperator(text, ops)
            case None => true
            case Some((op, rest)) => Strip(text) == Strip(Token(op)) + Strip(rest)
  {
    hide Match, Strip, Token;
    if ops != [] {
      StripMatch(text, Token(ops[0]));
      StripOperator(text, ops[1..]);
    }
  }

  /** What is left of a tree's text. */
  function Bare(e: Expr): string {
    Strip(PrintBare(e))
  }

  lemma BareAt(e: Expr, p: nat)
    ensures Strip(PrintAt(e, p)) == Bare(e)
  {
    hide PrintBare;
    StripTwo("(" + PrintBare(e), ")");
    StripTwo("(", PrintBare(e));
    OnlyPunctuation();
  }

  lemma OnlyPunctuation()
    ensures Strip("(") == "" && Strip(")") == ""
  {
    assert "("[1..] == "" && ")"[1..] == "";
  }

  lemma BareBinary(op: Op, left: Expr, right: Expr)
    ensures Bare(Binary(op, left, right)) == Bare(left) + Strip(Token(op)) + Bare(right)
  {
    hide Strip, PrintAt, Token;
    var l, r := PrintAt(left, LevelOf(op)), PrintAt(right, LevelOf(op) + 1);
    StripTwo(l + Token(op), r);
    StripTwo(l, Token(op));
    BareAt(left, LevelOf(op));
    BareAt(right, LevelOf(op) + 1);
  }

  lemma BareSigned(e: Expr)
    ensures Bare(LogicalNot(e)) == Strip("!") + Bare(e) && Bare(Minus(e)) == Strip("-") + Bare(e)
  {
    hide Strip, PrintAt;
    StripTwo("!", PrintAt(e, LEVELS));
    StripTwo("-", PrintAt(e, LEVELS));
    BareAt(e, LEVELS);
  }

  /** The text that a tree takes, up to white space and parentheses, is the tree's. */
  ghost predicate TextOf(t: Tree, text: string) {
    t.Tree? ==> Strip(text) == Bare(t.expr) + Strip(t.rest)
  }

  ghost predicate TextOfList(t: Trees, text: string) {
    t.Trees? ==> Strip(text) == Strip(PrintArguments(t.exprs)) + Strip(t.rest)
  }

  lemma {:induction false} LevelText(level: nat, text: string)
    requires level <= LEVELS
    ensures TextOf(TreeLevel(level, text), text)
    decreases |text|, 3 + LEVELS - level
  {
    hide TreeTail, TreeUnary, Strip, Bare;
    if level == LEVELS {
      UnaryText(text);
    } else {
      LevelText(level + 1, text);
      match TreeLevel(level + 1, text)
      case NoTree =>
      case Tree(left, rest) => TailText(level, left, rest);
    }
  }

  lemma {:induction false} TailText(level: nat, left: Expr, text: string)
    requires level < LEVELS
    ensures var t := TreeTail(level, left, text);
            t.Tree? ==> Bare(left) + Strip(text) == Bare(t.expr) + Strip(t.rest)
    decreases |text|, 0
  {
    hide MatchOperator, Operators, TreeLevel, SkipSpace, Strip, Bare, Token;
    StripSkip(text);
    StripOperator(text, Operators(level));
    match MatchOperator(text, Operators(level))
    case None =>
    case Some((op, rest)) =>
      LevelText(level + 1, rest);
      match TreeLevel(level + 1, rest)
      case NoTree =>
      case Tree(right, rest') =>
        TailText(level, Binary(op, left, right), rest');
        BareBinary(op, left, right);
        Four(Bare(left), Strip(Token(op)), Bare(right), Strip(rest'));
  }

  lemma Four(a: string, b: string, c: string, d: string)
    ensures a + (b + (c + d)) == (a + b + c) + d
  {
  }

  lemma {:induction false} UnaryText(text: string)
    ensures TextOf(TreeUnary(text), text)
    decreases |text|, 2
  {
    hide Match, TreePrimary, SkipSpace, Strip, Bare;
    StripMatch(text, "!");
    StripMatch(text, "-");
    match Match(text, "!")
    case Some(rest) =>
      UnaryText(rest);
      SignedText(TreeUnary(rest), rest);
    case None =>
      match Match(text, "-")
      case Some(rest) =>
        UnaryText(rest);
        SignedText(TreeUnary(rest), rest);
      case None =>
        StripSkip(text);
        PrimaryText(SkipSpace(text));
  }

  lemma SignedText(t: Tree, rest: string)
    requires TextOf(t, rest)
    ensures t.Tree? ==> Strip("!") + Strip(rest) == Bare(LogicalNot(t.expr)) + Strip(t.rest)
    ensures t.Tree? ==> Strip("-") + Strip(rest) == Bare(Minus(t.expr)) + Strip(t.rest)
  {
    hide Strip, Bare;
    if t.Tree? {
      BareSigned(t.expr);
    }
  }

  lemma {:induction false} PrimaryText(s: string)
    ensures TextOf(TreePrimary(s), s)
    decreases |s|, 1
  {
    hide Match, TreeLevel, TreeNamed, Strip, NumberEnd;
    if s != [] {
      OnlyPunctuation();
      StripMatch(s, "(");
      match Match(s, "(")
      case Some(rest) =>
        LevelText(0, rest);
        var t := TreeLevel(0, rest);
        if t.Tree? {
          StripMatch(t.rest, ")");
        }
      case None =>
        if IsDigit(s[0]) || s[0] == '.' {
          StripParts(s, NumberEnd(s));
        } else if IsIdentStart(s[0]) {
          NamedText(s);
        }
    }
  }

  lemma {:induction false} NamedText(s: string)
    requires s != [] && IsIdentStart(s[0])
    ensures TextOf(TreeNamed(s), s)
    decreases |s|, 0
  {
    hide Match, TreeCall, TreeProbe, SkipSpace, IdentRun, IsProbe, Strip, Bare;
    var n := IdentRun(s);
    var name, rest := s[..n], s[n..];
    StripParts(s, n);
    StripSkip(rest);
    NameTexts(name);
    OnlyPunctuation();
    StripMatch(rest, "(");
    if Match(rest, "(").Some? {
      var inside := Match(rest, "(").value;
      ProbeText(name, inside);
      CallText(name, inside);
    }
  }

  lemma NameTexts(name: string)
    ensures Bare(Input(name)) == Strip(name)
    ensures Bare(NullConstant) == Strip("null")
    ensures Bare(Boolean(true)) == Strip("true") && Bare(Boolean(false)) == Strip("false")
  {
    hide Strip;
  }

  lemma {:induction false} ProbeText(probe: string, text: string)
    ensures var t := TreeProbe(probe, text); t.Tree? ==> Strip(probe) + Strip(text) == Bare(t.expr) + Strip(t.rest)
  {
    hide Match, SkipSpace, IdentRun, Strip, Bare;
    var s := SkipSpace(text);
    StripSkip(text);
    if s != [] && IsIdentStart(s[0]) {
      var n := IdentRun(s);
      StripParts(s, n);
      OnlyPunctuation();
      StripMatch(s[n..], ")");
      BareProbe(probe, s[..n]);
    }
  }

  lemma BareProbe(probe: string, name: string)
    ensures Bare(Probe(probe, name)) == Strip(probe) + Strip(name)
  {
    hide Strip;
    OnlyPunctuation();
    StripTwo(probe + "(" + name, ")");
    StripTwo(probe + "(", name);
    StripTwo(probe, "(");
  }

  lemma {:induction false} CallText(name: string, text: string)
    ensures var t := TreeCall(name, text); t.Tree? ==> Strip(name) + Strip(text) == Bare(t.expr) + Strip(t.rest)
    decreases |text|, 5 + LEVELS
  {
    hide TreeArguments, Strip, PrintArguments;
    ArgumentsText(text);
    match TreeArguments(text)
    case NoTrees =>
    case Trees(args, rest) =>
      OnlyPunctuation();
      StripTwo(name + "(", PrintArguments(args));
      StripTwo(name, "(");
  }

  lemma {:induction false} ArgumentsText(text: string)
    ensures TextOfList(TreeArguments(text), text)
    decreases |text|, 4 + LEVELS, 1
  {
    hide Match, TreeArgumentList, Strip;
    OnlyPunctuation();
    StripMatch(text, ")");
    if Match(text, ")").None? {
      ArgumentListText(text);
    }
  }

  lemma {:induction false} ArgumentListText(text: string)
    ensures TextOfList(TreeArgumentList(text), text)
    decreases |text|, 4 + LEVELS, 0
  {
    hide Match, TreeLevel, Strip, Bare, PrintArguments;
    LevelText(0, text);
    match TreeLevel(0, text)
    case NoTree =>
    case Tree(e, rest) =>
      OnlyPunctuation();
      StripMatch(rest, ")");
      StripMatch(rest, ",");
      LastArgument(e);
      match Match(rest, ")")
      case Some(_) =>
      case None =>
        match Match(rest, ",")
        case None =>
        case Some(rest') =>
          ArgumentListText(rest');
          match TreeArgumentList(rest')
          case NoTrees =>
          case Trees(es, rest'') =>
            MoreArguments(e, es);
            Four(Bare(e), Strip(","), Strip(PrintArguments(es)), Strip(rest''));
  }

  lemma LastArgument(e: Expr)
    ensures Strip(PrintArguments([e])) == Bare(e)
  {
    hide Strip, PrintAt;
    StripTwo(PrintAt(e, 0), ")");
    BareAt(e, 0);
    OnlyPunctuation();
  }

  lemma MoreArguments(e: Expr, es: seq<Expr>)
    requires es != []
    ensures Strip(PrintArguments([e] + es)) == Bare(e) + Strip(",") + Strip(PrintArguments(es))
  {
    hide Strip, PrintAt;
    assert ([e] + es)[1..] == es;
    StripTwo(PrintAt(e, 0) + ",", PrintArguments(es));
    StripTwo(PrintAt(e, 0), ",");
    BareAt(e, 0);
  }

  // ----- every text -----

  /** For every text and all inputs: the evaluator gives the value of the text's tree, or fails if there is none;
      and up to white space and parentheses the text is that of the tree. */
  lemma {:induction false} EveryText(env: Env, text: string)
    ensures ParseExpression(env, text) == match TreeOf(text) case None => Failed case Some(e) => Eval(env, e)
    ensures match TreeOf(text) case None => true case Some(e) => Strip(text) == Strip(PrintExpression(e))
  {
    hide ParseLevel, TreeLevel, SkipSpace, Eval, Strip, PrintAt, Stuck;
    LevelAgrees(env, 0, text);
    LevelText(0, text);
    match TreeLevel(0, text)
    case NoTree =>
    case Tree(e, rest) =>
      if Stuck(rest) {
        StuckMatches(rest, ")");
        StuckIsText(rest);
      }
      StripSkip(rest);
      BareAt(e, 0);
      NothingStripped();
  }

  lemma StuckIsText(rest: string)
    requires Stuck(rest)
    ensures rest != []
  {
  }

  lemma NothingStripped()
    ensures Strip("") == ""
  {
  }
}
