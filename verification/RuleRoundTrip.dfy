/** The printed text of a tree has that tree, and therefore evaluates to the tree's value. */
module RuleRoundTrip {
  import opened Results
  import opened Decimal
  import opened RuleValues
  import opened RuleParser
  import opened RuleSyntax
  import opened RuleGrammar
  import opened RuleLexing
  import opened RuleTrees

  /** What a binary level makes of an operand and the text after it. */
  function ExpectedAt(level: nat, e: Expr, r: string): Tree
    requires level <= LEVELS
  {
    if level == LEVELS then Tree(e, r) else TreeTail(level, e, r)
  }

  function Above(p: nat): nat {
    if p < LEVELS then p + 1 else p
  }

  lemma {:induction false} StopsMore(p: nat, q: nat, r: string)
    requires p <= q && Stops(p, r)
    ensures Stops(q, r)
  {
  }

  /** Text that stops a level ends its loop. */
  lemma {:induction false} TailStops(level: nat, e: Expr, r: string)
    requires level < LEVELS && Stops(level, r)
    ensures TreeTail(level, e, r) == Tree(e, r)
  {
    StopsSkip(level, r);
    forall k | 0 <= k < |Operators(level)| {
      OperatorsOfLevel(level, k);
    }
    NoneMatches(level, r, Operators(level));
  }

  /** A level whose text stops has its operand. */
  lemma {:induction false} SettledAt(level: nat, e: Expr, r: string)
    requires level <= LEVELS && (level < LEVELS ==> Stops(level, r))
    ensures ExpectedAt(level, e, r) == Tree(e, r)
  {
    hide TreeTail, Stops;
    if level < LEVELS {
      TailStops(level, e, r);
    }
  }

  // ----- the text of an operand -----

  lemma {:induction false} PrintedOperand(e: Expr, p: nat)
    requires WellFormed(e)
    ensures Operand(PrintAt(e, p))
    decreases e, 1
  {
    BareOperand(e);
  }

  lemma {:induction false} BareOperand(e: Expr)
    requires WellFormed(e)
    ensures Operand(PrintBare(e))
    decreases e, 0
  {
    match e
    case Binary(op, left, right) =>
      PrintedOperand(left, LevelOf(op));
      assert PrintBare(e)[0] == PrintAt(left, LevelOf(op))[0];
    case Literal(text) =>
      assert text[0] == PrintBare(e)[0];
    case Call(name, args) => assert PrintBare(e)[0] == name[0];
    case Probe(probe, name) => assert PrintBare(e)[0] == probe[0];
    case _ =>
  }

  lemma {:induction false} OperandThen(t: string, r: string)
    requires Operand(t)
    ensures Operand(t + r) && (t + r)[0] == t[0] && SkipSpace(t + r) == t + r
  {
    hide SkipSpace;
    OperandSkip(t + r);
  }

  // ----- primaries -----

  /** Text that begins with neither `!` nor `-` goes straight to a primary. */
  lemma {:induction false} UnaryIsPrimary(s: string)
    requires s != [] && SkipSpace(s) == s && s[0] != '!' && s[0] != '-'
    ensures TreeUnary(s) == TreePrimary(s)
  {
    hide TreePrimary, SkipSpace;
    assert s[..1] == [s[0]];
  }

  /** Without a parenthesis in front, the first character decides between a number and a name. */
  lemma {:induction false} PrimaryByHead(s: string)
    requires s != [] && SkipSpace(s) == s && (IsDigit(s[0]) || s[0] == '.' || IsIdentStart(s[0]))
    ensures TreeUnary(s) ==
              if IsDigit(s[0]) || s[0] == '.' then Tree(Literal(s[..NumberEnd(s)]), s[NumberEnd(s)..]) else TreeNamed(s)
  {
    hide SkipSpace, NumberEnd, TreeUnary, TreeLevel, TreeNamed;
    UnaryIsPrimary(s);
    assert s[..1] == [s[0]];
  }

  /** The exponent of a number is read as before in front of text that does not go on with it. */
  lemma {:induction false} ExponentThen(x: string, r: string)
    requires ExponentEnd(x) == |x| && AfterNumber(r)
    requires |x| == 1 && r != [] ==> r[0] != '+' && r[0] != '-'
    ensures ExponentEnd(x + r) == |x|
  {
    hide DigitRun;
    if x == [] {
      assert x + r == r;
    } else {
      var k := if 1 < |x| && (x[1] == '+' || x[1] == '-') then 2 else 1;
      assert x[k..][..DigitRun(x[k..])] == x[k..];
      DigitRunOf(x[k..], r);
      assert (x + r)[k..] == x[k..] + r;
    }
  }

  lemma {:induction false} NumberThen(text: string, r: string)
    requires IsNumber(text) && AfterNumber(r) && (IsOpen(Literal(text)) && r != [] ==> r[0] != '+' && r[0] != '-')
    ensures NumberEnd(text + r) == |text|
  {
    hide NumberRun, ExponentEnd;
    var m := NumberRun(text);
    var x := text[m..];
    ExponentHead(x);
    forall k | 0 <= k < m {
      RunIsNumeric(text, k);
    }
    NumberRunOf(text[..m], x + r);
    assert text + r == text[..m] + (x + r);
    ExponentThen(x, r);
  }

  lemma ExponentHead(x: string)
    requires ExponentEnd(x) == |x|
    ensures x != [] ==> x[0] == 'e' || x[0] == 'E'
  {
  }

  lemma {:induction false} NumberIsParsed(text: string, r: string)
    requires IsNumber(text) && Stops(LEVELS, r) && (IsOpen(Literal(text)) && r != [] ==> r[0] != '+' && r[0] != '-')
    ensures TreeUnary(text + r) == Tree(Literal(text), r)
  {
    hide SkipSpace, NumberEnd, TreeUnary;
    OperandThen(text, r);
    PrimaryByHead(text + r);
    NumberThen(text, r);
    assert (text + r)[..|text|] == text && (text + r)[|text|..] == r;
  }

  /** What a level reads as an operand it reads as its own tree if the text stops behind it. */
  lemma {:induction false} OperandAtLevel(level: nat, text: string, e: Expr, r: string)
    requires level <= LEVELS && TreeUnary(text) == Tree(e, r) && Stops(0, r)
    ensures TreeLevel(level, text) == Tree(e, r)
    decreases LEVELS - level
  {
    hide TreeLevel, TreeUnary, TreeTail, Stops;
    if level == LEVELS {
      LevelIsUnary(text);
    } else {
      OperandAtLevel(level + 1, text, e, r);
      LevelUnfolds(level, text);
      StopsMore(0, level, r);
      TailStops(level, e, r);
    }
  }

  /** An open number is read from within its parentheses. */
  lemma {:induction false} OpenIsParsed(text: string, r: string)
    requires IsNumber(text)
    ensures TreeUnary("(" + text + ")" + r) == Tree(Literal(text), r)
  {
    hide TreeUnary, TreeLevel, IsNumber;
    ClosingStops(0, r);
    ClosingStops(LEVELS, r);
    NumberIsParsed(text, ")" + r);
    OperandAtLevel(0, text + (")" + r), Literal(text), ")" + r);
    BareOperand(Literal(text));
    ParenthesisIsParsed(text, r, Literal(text));
  }

  lemma {:induction false} LiteralIsParsed(text: string, r: string)
    requires IsNumber(text) && Stops(LEVELS, r)
    ensures TreeUnary(PrintAt(Literal(text), LEVELS) + r) == Tree(Literal(text), r)
  {
    hide TreeUnary, IsNumber, Stops;
    assert PrintBare(Literal(text)) == text;
    if IsOpen(Literal(text)) {
      OpenIsParsed(text, r);
    } else {
      NumberIsParsed(text, r);
    }
  }

  /** A name in front is read as a whole and handed on. */
  lemma {:induction false} NameIsRead(name: string, r: string)
    requires IsIdentifier(name) && (r != [] ==> !IsIdentPart(r[0]))
    ensures TreeUnary(name + r) == TreeNamed(name + r)
    ensures (name + r)[..IdentRun(name + r)] == name && (name + r)[IdentRun(name + r)..] == r
  {
    hide SkipSpace, TreeUnary, TreeNamed, IdentRun, Operand, IsIdentStart, IsDigit;
    NameHead(name);
    OperandThen(name, r);
    PrimaryByHead(name + r);
    NameSplits(name, r);
  }

  lemma NameHead(name: string)
    requires IsIdentifier(name)
    ensures name != [] && Operand(name) && IsIdentStart(name[0]) && !IsDigit(name[0]) && name[0] != '.'
  {
  }

  lemma {:induction false} NameSplits(name: string, r: string)
    requires IsIdentifier(name) && (r != [] ==> !IsIdentPart(r[0]))
    ensures (name + r)[..IdentRun(name + r)] == name && (name + r)[IdentRun(name + r)..] == r
  {
    hide IdentRun, IsIdentPart;
    IdentRunOf(name, r);
  }

  lemma {:induction false} ConstantIsParsed(e: Expr, r: string)
    requires (e.NullConstant? || e.Boolean?) && Stops(LEVELS, r)
    ensures TreeUnary(PrintBare(e) + r) == Tree(e, r)
  {
    hide TreeUnary, IdentRun;
    var name := PrintBare(e);
    assert IsIdentifier(name);
    NameIsRead(name, r);
  }

  lemma {:induction false} StopsBeforeCall(r: string)
    requires Stops(LEVELS, r)
    ensures Match(r, "(") == None && (r != [] ==> !IsIdentPart(r[0]))
  {
    hide SkipSpace;
    StopsSkip(LEVELS, r);
    assert r != [] ==> r[..1] == [r[0]];
  }

  lemma {:induction false} InputIsParsed(name: string, r: string)
    requires IsIdentifier(name) && !IsReserved(name) && Stops(LEVELS, r)
    ensures TreeUnary(name + r) == Tree(Input(name), r)
  {
    hide TreeUnary, IdentRun, SkipSpace, Match, IsIdentifier, Stops;
    StopsBeforeCall(r);
    NameIsRead(name, r);
    StopsSkip(LEVELS, r);
    IdentifierHead(name, r);
  }

  /** A name before a parenthesis begins a call. */
  lemma {:induction false} CallIsEntered(name: string, inner: string)
    requires IsIdentifier(name) && !IsReserved(name)
    ensures TreeUnary(name + ("(" + inner)) ==
              if IsProbe(name) then TreeProbe(name, inner) else TreeCall(name, inner)
  {
    hide TreeUnary, IdentRun, SkipSpace, Match, TreeProbe, TreeCall, IsProbe, IsIdentifier;
    NameIsRead(name, "(" + inner);
    MatchToken("(", inner);
    IdentifierHead(name, "(" + inner);
  }

  lemma {:induction false} IdentifierHead(name: string, r: string)
    requires IsIdentifier(name)
    ensures name + r != [] && IsIdentStart((name + r)[0])
  {
  }

  lemma {:induction false} ProbeIsName(probe: string)
    requires IsProbe(probe)
    ensures IsIdentifier(probe) && !IsReserved(probe)
  {
  }

  lemma {:induction false} ProbeIsParsed(probe: string, name: string, r: string)
    requires IsProbe(probe) && IsIdentifier(name)
    ensures TreeUnary(probe + "(" + name + ")" + r) == Tree(Probe(probe, name), r)
  {
    hide TreeUnary, TreeProbe, IsProbe, IsIdentifier;
    var inner := name + (")" + r);
    assert probe + "(" + name + ")" + r == probe + ("(" + inner);
    ProbeIsName(probe);
    CallIsEntered(probe, inner);
    NameInside(probe, name, r);
  }

  lemma {:induction false} NameInside(probe: string, name: string, r: string)
    requires IsIdentifier(name)
    ensures TreeProbe(probe, name + (")" + r)) == Tree(Probe(probe, name), r)
  {
    hide IdentRun, SkipSpace, Match;
    var s := name + (")" + r);
    OperandThen(name, ")" + r);
    IdentRunOf(name, ")" + r);
    assert s[..|name|] == name && s[|name|..] == ")" + r;
    MatchToken(")", r);
  }

  lemma {:induction false} ParenthesisIsParsed(inner: string, r: string, e: Expr)
    requires Operand(inner)
    requires TreeLevel(0, inner + (")" + r)) == Tree(e, ")" + r)
    ensures TreeUnary("(" + inner + ")" + r) == Tree(e, r)
  {
    hide TreeUnary, SkipSpace, Match, TreeLevel;
    var s := "(" + inner + ")" + r;
    assert s == "(" + (inner + (")" + r));
    OperandThen("(", inner + (")" + r));
    UnaryIsPrimary(s);
    MatchToken("(", inner + (")" + r));
    MatchToken(")", r);
  }

  // ----- the recursion -----

  /** Orders the ways down: a parenthesised tree comes before the same tree at the lowest level. */
  function Rank(e: Expr, p: nat): nat {
    (if e.Binary? && LevelOf(e.op) < p then 20 else 10) - (if p < LEVELS then p else LEVELS)
  }

  /** At every level, parsing the text printed for that level reaches the tree's value and goes on
      with the text after it. */
  lemma {:induction false} ParsesAt(e: Expr, p: nat, r: string)
    requires WellFormed(e) && p <= LEVELS && Stops(Above(p), r)
    ensures TreeLevel(p, PrintAt(e, p) + r) == ExpectedAt(p, e, r)
    decreases e, 2, Rank(e, p)
  {
    hide TreeLevel, TreeTail, PrintBare, WellFormed, Stops, Match, MatchOperator;
    if p == LEVELS {
      assert TreeLevel(p, PrintAt(e, p) + r) == TreeUnary(PrintAt(e, p) + r) by {
        LevelIsUnary(PrintAt(e, p) + r);
      }
      ParsesUnary(e, r);
    } else if e.Binary? && LevelOf(e.op) == p {
      ParsesBinary(e, r);
    } else {
      StopsMore(p + 1, Above(p + 1), r);
      ParsesAt(e, p + 1, r);
      SettledAt(p + 1, e, r);
      assert PrintAt(e, p) == PrintAt(e, p + 1);
      LevelUnfolds(p, PrintAt(e, p) + r);
    }
  }

  lemma {:induction false} LevelIsUnary(text: string)
    ensures TreeLevel(LEVELS, text) == TreeUnary(text)
  {
  }

  lemma {:induction false} LevelUnfolds(p: nat, text: string)
    requires p < LEVELS
    ensures TreeLevel(p, text) ==
              match TreeLevel(p + 1, text)
              case NoTree => NoTree
              case Tree(left, rest) => TreeTail(p, left, rest)
  {
  }

  lemma {:induction false} BinaryText(e: Expr, r: string)
    requires WellFormed(e) && e.Binary?
    ensures var q := LevelOf(e.op);
            PrintBare(e) + r == PrintAt(e.left, q) + (Token(e.op) + (PrintAt(e.right, q + 1) + r))
  {
    hide PrintAt, Token, LevelOf;
  }

  /** A left-associated operator at its own level. */
  lemma {:induction false} ParsesBinary(e: Expr, r: string)
    requires WellFormed(e) && e.Binary? && Stops(LevelOf(e.op) + 1, r)
    ensures TreeLevel(LevelOf(e.op), PrintBare(e) + r) == ExpectedAt(LevelOf(e.op), e, r)
    decreases e, 1, 0
  {
    hide TreeLevel, TreeTail, PrintAt, PrintBare, Stops, Match, MatchOperator, Token, Operators;
    var q := LevelOf(e.op);
    var right := PrintAt(e.right, q + 1) + r;
    var r1 := Token(e.op) + right;
    BinaryText(e, r);
    assert Stops(q + 1, r1) by {
      TokenStops(e.op, right);
    }
    ParsesAt(e.left, q, r1);
    PrintedOperand(e.right, q + 1);
    OperandThen(PrintAt(e.right, q + 1), r);
    MatchesOperator(e.op, right);
    StopsMore(q + 1, Above(q + 1), r);
    ParsesAt(e.right, q + 1, r);
    SettledAt(q + 1, e.right, r);
    TailUnfolds(q, e.left, r1, e.op, right);
  }

  lemma {:induction false} TailUnfolds(level: nat, left: Expr, text: string, op: Op, rest: string)
    requires level < LEVELS && MatchOperator(text, Operators(level)) == Some((op, rest))
    ensures TreeTail(level, left, text) ==
              match TreeLevel(level + 1, rest)
              case NoTree => NoTree
              case Tree(right, rest') => TreeTail(level, Binary(op, left, right), rest')
  {
    hide MatchOperator, Operators;
  }

  lemma {:induction false} TokenStops(op: Op, t: string)
    ensures Stops(LevelOf(op) + 1, Token(op) + t)
  {
    TokenHead(op);
  }

  lemma {:induction false} ParsesUnary(e: Expr, r: string)
    requires WellFormed(e) && Stops(LEVELS, r)
    ensures TreeUnary(PrintAt(e, LEVELS) + r) == Tree(e, r)
    decreases e, 2, if e.Binary? then 13 else 0
  {
    hide TreeLevel, TreeTail, Stops, Match, TreePrimary, SkipSpace, IsNumber, IsIdentifier, IsProbe, IsReserved;
    match e
    case Binary(op, left, right) =>
      var inner := PrintBare(e);
      BareOperand(e);
      ClosingStops(0, r);
      ClosingStops(1, r);
      ParsesAt(e, 0, ")" + r);
      SettledAt(0, e, ")" + r);
      ParenthesisIsParsed(inner, r, e);
    case LogicalNot(operand) =>
      var t := PrintAt(operand, LEVELS) + r;
      assert PrintAt(e, LEVELS) + r == "!" + t;
      MatchToken("!", t);
      ParsesUnary(operand, r);
    case Minus(operand) =>
      var t := PrintAt(operand, LEVELS) + r;
      assert PrintAt(e, LEVELS) + r == "-" + t;
      MinusIsNotBang(t);
      MatchToken("-", t);
      ParsesUnary(operand, r);
    case Literal(text) => LiteralIsParsed(text, r);
    case NullConstant => ConstantIsParsed(e, r);
    case Boolean(_) => ConstantIsParsed(e, r);
    case Input(name) => InputIsParsed(name, r);
    case Call(name, args) => ParsesCall(e, r);
    case Probe(probe, name) => ProbeIsParsed(probe, name, r);
  }

  lemma {:induction false} ClosingStops(p: nat, r: string)
    ensures Stops(p, ")" + r) && Stops(p, "," + r)
  {
  }

  lemma {:induction false} MinusIsNotBang(t: string)
    ensures Match("-" + t, "!") == None
  {
    assert ("-" + t)[..1] == "-";
  }

  lemma {:induction false} ParsesCall(e: Expr, r: string)
    requires WellFormed(e) && e.Call?
    ensures TreeUnary(PrintBare(e) + r) == Tree(e, r)
    decreases e, 1, 0
  {
    hide TreeUnary, TreeArguments, IsIdentifier;
    var inner := PrintArguments(e.args) + r;
    assert PrintBare(e) + r == e.name + ("(" + inner);
    CallIsEntered(e.name, inner);
    ParsesArguments(e.args, r);
  }

  lemma {:induction false} ParsesArguments(es: seq<Expr>, r: string)
    requires AllWellFormed(es)
    ensures TreeArguments(PrintArguments(es) + r) == Trees(es, r)
    decreases es, 1, 0
  {
    hide TreeArgumentList, Match;
    if es == [] {
      MatchToken(")", r);
    } else {
      ParsesArgumentList(es, r);
      NotClosing(es, r);
    }
  }

  lemma {:induction false} NotClosing(es: seq<Expr>, r: string)
    requires AllWellFormed(es) && es != []
    ensures Match(PrintArguments(es) + r, ")") == None
  {
    hide SkipSpace, PrintAt;
    var t := PrintArguments(es);
    PrintedOperand(es[0], 0);
    assert t[0] == PrintAt(es[0], 0)[0];
    OperandThen(t, r);
    assert (t + r)[..1] == [t[0]];
  }

  lemma {:induction false} ParsesArgumentList(es: seq<Expr>, r: string)
    requires AllWellFormed(es) && es != []
    ensures TreeArgumentList(PrintArguments(es) + r) == Trees(es, r)
    decreases es, 0, 0
  {
    hide TreeLevel, TreeTail, Match, PrintAt, Stops, WellFormed;
    var first := PrintAt(es[0], 0);
    if |es| == 1 {
      assert PrintArguments(es) + r == first + (")" + r);
      assert es[1..] == [];
      ClosingStops(0, r);
      ClosingStops(1, r);
      ParsesAt(es[0], 0, ")" + r);
      SettledAt(0, es[0], ")" + r);
      MatchToken(")", r);
    } else {
      var rest := PrintArguments(es[1..]) + r;
      assert PrintArguments(es) + r == first + ("," + rest);
      ClosingStops(0, rest);
      ClosingStops(1, rest);
      ParsesAt(es[0], 0, "," + rest);
      SettledAt(0, es[0], "," + rest);
      CommaIsNotClosing(rest);
      MatchToken(",", rest);
      ParsesArgumentList(es[1..], r);
    }
  }

  lemma {:induction false} CommaIsNotClosing(t: string)
    ensures Match("," + t, ")") == None
  {
    assert ("," + t)[..1] == ",";
  }

  /** The printed form is unambiguous: its tree is the tree that was printed. */
  lemma {:induction false} TreeOfPrinted(e: Expr)
    requires WellFormed(e)
    ensures TreeOf(PrintExpression(e)) == Some(e)
  {
    hide TreeLevel, PrintAt, WellFormed;
    ParsesAt(e, 0, "");
    SettledAt(0, e, "");
    assert PrintAt(e, 0) + "" == PrintAt(e, 0);
  }

  /** The evaluator agrees with the tree: for every well-formed tree and every input map, parsing its
      printed text gives exactly the tree's value, nulls and failures included. */
  lemma {:induction false} ParsePrinted(env: Env, e: Expr)
    requires WellFormed(e)
    ensures ParseExpression(env, PrintExpression(e)) == Eval(env, e)
  {
    hide TreeOf, ParseExpression, Eval, PrintExpression, WellFormed, Strip;
    TreeOfPrinted(e);
    EveryText(env, PrintExpression(e));
  }

  /** The text of a numeral is read as its value. */
  lemma {:induction false} NumeralEvaluates(env: Env, n: Numeral)
    requires IsNumeral(n)
    ensures WellFormed(Literal(PrintNumeral(n)))
    ensures ParseExpression(env, PrintNumeral(n)) == Ok(Number(NumeralValue(n)))
  {
    hide IsNumeral, PrintNumeral, NumberEnd, Strtod, NumeralValue, ParseExpression;
    var text := PrintNumeral(n);
    assert text + "" == text;
    NumeralHead(n);
    NumberEndOf(n, "");
    StrtodOf(n, "");
    assert PrintBare(Literal(text)) == text;
    ParsePrinted(env, Literal(text));
  }

  lemma {:induction false} NumeralHead(n: Numeral)
    requires IsNumeral(n)
    ensures var text := PrintNumeral(n);
            && text != [] && (IsDigit(text[0]) || text[0] == '.') && !IsOpen(Literal(text))
  {
    var text := PrintNumeral(n);
    if n.whole != [] {
      assert text[0] == n.whole[0];
    } else {
      assert text[0] == '.';
    }
    if n.exponent.Some? {
      var digits := n.exponent.value.1;
      assert text[|text| - 1] == digits[|digits| - 1];
    } else if n.fraction.Some? && n.fraction.value != [] {
      var digits := n.fraction.value;
      assert text[|text| - 1] == digits[|digits| - 1];
    } else if n.fraction.Some? {
      assert text[|text| - 1] == '.';
    } else {
      assert text[|text| - 1] == n.whole[|n.whole| - 1];
    }
  }

  // ----- the trees of texts -----

  lemma {:induction false} ExponentAgain(x: string)
    ensures ExponentEnd(x[..ExponentEnd(x)]) == ExponentEnd(x)
    ensures ExponentEnd(x) > 0 ==> x[0] == 'e' || x[0] == 'E'
  {
    hide DigitRun;
    if ExponentEnd(x) > 0 {
      var k := if 1 < |x| && (x[1] == '+' || x[1] == '-') then 2 else 1;
      var n := DigitRun(x[k..]);
      assert x[..k + n][k..] == x[k..][..n];
      DigitsCut(x[k..], n);
      if k == 1 && n > 0 {
        assert x[..k + n][1] == x[1];
      }
    }
  }

  /** The text that the scanner consumes is a number. */
  lemma {:induction false} NumberAgain(s: string)
    requires s != [] && (IsDigit(s[0]) || s[0] == '.')
    ensures IsNumber(s[..NumberEnd(s)])
  {
    hide NumberRun, ExponentEnd;
    var m, n := NumberRun(s), NumberEnd(s);
    var x := s[m..];
    ExponentAgain(x);
    forall k | 0 <= k < m {
      RunIsNumeric(s, k);
    }
    assert s[..n] == s[..m] + x[..n - m] && s[..n][m..] == x[..n - m];
    NumberRunOf(s[..m], x[..n - m]);
  }

  lemma RunIsIdentifier(s: string)
    requires s != [] && IsIdentStart(s[0])
    ensures IsIdentifier(s[..IdentRun(s)])
  {
  }

  ghost predicate Formed(t: Tree) {
    t.Tree? ==> WellFormed(t.expr)
  }

  lemma {:induction false} LevelForm(level: nat, text: string)
    requires level <= LEVELS
    ensures Formed(TreeLevel(level, text))
    decreases |text|, 3 + LEVELS - level
  {
    hide TreeTail, TreeUnary, WellFormed;
    if level == LEVELS {
      UnaryForm(text);
    } else {
      LevelForm(level + 1, text);
      match TreeLevel(level + 1, text)
      case NoTree =>
      case Tree(left, rest) => TailForm(level, left, rest);
    }
  }

  lemma {:induction false} TailForm(level: nat, left: Expr, text: string)
    requires level < LEVELS && WellFormed(left)
    ensures Formed(TreeTail(level, left, text))
    decreases |text|, 0
  {
    hide MatchOperator, Operators, TreeLevel, SkipSpace;
    match MatchOperator(text, Operators(level))
    case None =>
    case Some((op, rest)) =>
      LevelForm(level + 1, rest);
      match TreeLevel(level + 1, rest)
      case NoTree =>
      case Tree(right, rest') => TailForm(level, Binary(op, left, right), rest');
  }

  lemma {:induction false} UnaryForm(text: string)
    ensures Formed(TreeUnary(text))
    decreases |text|, 2
  {
    hide Match, TreePrimary, SkipSpace;
    match Match(text, "!")
    case Some(rest) => UnaryForm(rest);
    case None =>
      match Match(text, "-")
      case Some(rest) => UnaryForm(rest);
      case None => PrimaryForm(SkipSpace(text));
  }

  lemma {:induction false} PrimaryForm(s: string)
    ensures Formed(TreePrimary(s))
    decreases |s|, 1
  {
    hide Match, TreeLevel, TreeNamed, NumberEnd, IsNumber;
    if s != [] {
      match Match(s, "(")
      case Some(rest) => LevelForm(0, rest);
      case None =>
        if IsDigit(s[0]) || s[0] == '.' {
          NumberAgain(s);
        } else if IsIdentStart(s[0]) {
          NamedForm(s);
        }
    }
  }

  lemma {:induction false} NamedForm(s: string)
    requires s != [] && IsIdentStart(s[0])
    ensures Formed(TreeNamed(s))
    decreases |s|, 0
  {
    hide Match, TreeCall, TreeProbe, SkipSpace, IdentRun, IsProbe, IsIdentifier;
    var n := IdentRun(s);
    var name, rest := s[..n], s[n..];
    RunIsIdentifier(s);
    if !IsReserved(name) && Match(rest, "(").Some? {
      var inside := Match(rest, "(").value;
      if IsProbe(name) {
        ProbeForm(name, inside);
      } else {
        CallForm(name, inside);
      }
    }
  }

  lemma ProbeForm(probe: string, text: string)
    requires IsProbe(probe)
    ensures Formed(TreeProbe(probe, text))
  {
    hide Match, SkipSpace, IdentRun, IsProbe, IsIdentifier;
    var s := SkipSpace(text);
    if s != [] && IsIdentStart(s[0]) {
      RunIsIdentifier(s);
    }
  }

  lemma {:induction false} CallForm(name: string, text: string)
    requires IsIdentifier(name) && !IsReserved(name) && !IsProbe(name)
    ensures Formed(TreeCall(name, text))
    decreases |text|, 5 + LEVELS
  {
    hide TreeArguments, IsProbe, IsIdentifier, IsReserved, AllWellFormed;
    ArgumentsForm(text);
  }

  lemma {:induction false} ArgumentsForm(text: string)
    ensures TreeArguments(text).Trees? ==> AllWellFormed(TreeArguments(text).exprs)
    decreases |text|, 4 + LEVELS, 1
  {
    hide Match, TreeArgumentList;
    if Match(text, ")").None? {
      ArgumentListForm(text);
    }
  }

  lemma {:induction false} ArgumentListForm(text: string)
    ensures TreeArgumentList(text).Trees? ==> AllWellFormed(TreeArgumentList(text).exprs)
    decreases |text|, 4 + LEVELS, 0
  {
    hide Match, TreeLevel, WellFormed;
    LevelForm(0, text);
    match TreeLevel(0, text)
    case NoTree =>
    case Tree(e, rest) =>
      assert [e][1..] == [];
      if Match(rest, ")").None? && Match(rest, ",").Some? {
        var rest' := Match(rest, ",").value;
        ArgumentListForm(rest');
        if TreeArgumentList(rest').Trees? {
          var es := TreeArgumentList(rest').exprs;
          assert ([e] + es)[1..] == es;
        }
      }
  }

  /** The well-formed trees are exactly the trees of texts. */
  lemma {:induction false} TreesOfTexts(e: Expr)
    ensures WellFormed(e) <==> exists text :: TreeOf(text) == Some(e)
  {
    hide WellFormed, PrintExpression, TreeLevel, SkipSpace;
    if WellFormed(e) {
      TreeOfPrinted(e);
    }
    forall text | TreeOf(text) == Some(e)
      ensures WellFormed(e)
    {
      LevelForm(0, text);
    }
  }

  /** Every accepted text can be replaced by the printed text of its tree: that has the same tree, and so the same
      value for all inputs. */
  lemma {:induction false} Reprinted(env: Env, text: string)
    requires TreeOf(text).Some?
    ensures var printed := PrintExpression(TreeOf(text).value);
            TreeOf(printed) == TreeOf(text) && ParseExpression(env, printed) == ParseExpression(env, text)
  {
    hide WellFormed, PrintExpression, TreeOf, ParseExpression, Eval, Strip;
    var e := TreeOf(text).value;
    TreesOfTexts(e);
    TreeOfPrinted(e);
    EveryText(env, text);
    EveryText(env, PrintExpression(e));
  }
}
