/** The parser object: a cursor that moves through the expression in loops and recursion. */
module RuleEngine {
  import opened Results
  import opened Decimal
  import opened RuleValues
  import opened RuleParser

  lemma {:induction false} SkipTwice(s: string)
    ensures SkipSpace(SkipSpace(s)) == SkipSpace(s)
  {
    hide SkipSpace;
    if SkipSpace(s) == [] {
      EmptySkip();
    }
  }

  lemma EmptySkip()
    ensures SkipSpace([]) == []
  {
  }

  lemma {:induction false} MatchSkips(s: string, token: string)
    ensures Match(SkipSpace(s), token) == Match(s, token)
  {
    hide SkipSpace;
    SkipTwice(s);
  }

  lemma {:induction false} MatchOperatorSkips(s: string, ops: seq<Op>)
    ensures MatchOperator(SkipSpace(s), ops) == MatchOperator(s, ops)
  {
    hide SkipSpace, Match, Token;
    if ops != [] {
      MatchSkips(s, Token(ops[0]));
      MatchOperatorSkips(s, ops[1..]);
    }
  }

  // White space in front does not matter to any part of the grammar.

  lemma {:induction false} PrimarySkips(env: Env, s: string)
    ensures ParsePrimary(env, SkipSpace(s)) == ParsePrimary(env, s)
  {
    hide SkipSpace, ParsePrimaryAt;
    SkipTwice(s);
  }

  lemma {:induction false} UnarySkips(env: Env, s: string)
    ensures ParseUnary(env, SkipSpace(s)) == ParseUnary(env, s)
  {
    hide SkipSpace, Match, ParsePrimary;
    MatchSkips(s, "!");
    MatchSkips(s, "-");
    PrimarySkips(env, s);
  }

  lemma {:induction false} LevelSkips(env: Env, level: nat, s: string)
    requires level <= LEVELS
    ensures ParseLevel(env, level, SkipSpace(s)) == ParseLevel(env, level, s)
    decreases LEVELS - level
  {
    hide SkipSpace, ParseUnary, ParseTail;
    if level == LEVELS {
      UnarySkips(env, s);
    } else {
      LevelSkips(env, level + 1, s);
    }
  }

  lemma {:induction false} ArgumentsSkip(env: Env, s: string)
    ensures ParseArgumentList(env, SkipSpace(s)) == ParseArgumentList(env, s)
  {
    hide SkipSpace, ParseLevel, Match;
    LevelSkips(env, 0, s);
  }

  /** The text from position `i` on. */
  function From(s: string, i: nat): (r: string)
    requires i <= |s|
    ensures |r| == |s| - i
  {
    s[i..]
  }

  lemma FromStep(s: string, i: nat)
    requires i < |s|
    ensures From(s, i)[0] == s[i] && From(s, i)[1..] == From(s, i + 1)
  {
  }

  lemma FromDrop(s: string, i: nat, n: nat)
    requires i + n <= |s|
    ensures From(s, i)[n..] == From(s, i + n) && From(s, i)[..n] == s[i..i + n]
  {
  }

  predicate StartsAt(s: string, i: nat, token: string)
    requires i <= |s|
  {
    i + |token| <= |s| && s[i..i + |token|] == token
  }

  lemma MatchFrom(start: string, s: string, i: nat, token: string)
    requires i <= |s| && From(s, i) == SkipSpace(start)
    ensures StartsAt(s, i, token) ==> i + |token| <= |s| && Match(start, token) == Some(From(s, i + |token|))
    ensures !StartsAt(s, i, token) ==> Match(start, token) == None
  {
    hide From, SkipSpace, StartsAt, Match;
    MatchUnfolds(start, token);
    StartsFrom(s, i, token);
  }

  lemma StartsFrom(s: string, i: nat, token: string)
    requires i <= |s|
    ensures var t := From(s, i);
            && (StartsAt(s, i, token) <==> |token| <= |t| && t[..|token|] == token)
            && (i + |token| <= |s| ==> t[|token|..] == From(s, i + |token|))
  {
    hide From;
    if i + |token| <= |s| {
      FromDrop(s, i, |token|);
    }
  }

  lemma MatchUnfolds(start: string, token: string)
    ensures var t := SkipSpace(start);
            Match(start, token) == if |token| <= |t| && t[..|token|] == token then Some(t[|token|..]) else None
  {
    hide SkipSpace;
  }

  lemma IdentRunFrom(s: string, i: nat)
    requires i <= |s|
    ensures IdentRun(From(s, i)) == if i < |s| && IsIdentPart(s[i]) then 1 + IdentRun(From(s, i + 1)) else 0
  {
    hide From;
    if i < |s| {
      FromStep(s, i);
    }
  }

  lemma IdentStartIsPart(c: char)
    requires IsIdentStart(c)
    ensures IsIdentPart(c)
  {
  }

  class ExpressionParser {
    const expression: string
    const env: Env
    var pos: nat

    ghost predicate Valid()
      reads this
    {
      pos <= |expression|
    }

    /** The text that the cursor has not passed yet. */
    ghost function Rest(): string
      requires Valid()
      reads this
    {
      From(expression, pos)
    }

    constructor (expression: string, env: Env)
      ensures this.expression == expression && this.env == env && Valid() && Rest() == expression
    {
      this.expression, this.env, pos := expression, env, 0;
    }

    method SkipWhitespace()
      requires Valid()
      modifies `pos
      ensures Valid() && Rest() == SkipSpace(old(Rest())) && pos >= old(pos)
    {
      hide From;
      while pos < |expression| && IsSpace(expression[pos])
        invariant old(pos) <= pos <= |expression|
        invariant SkipSpace(From(expression, pos)) == SkipSpace(old(Rest()))
      {
        FromStep(expression, pos);
        pos := pos + 1;
      }
      if pos < |expression| {
        FromStep(expression, pos);
      }
    }

    method Accept(token: string) returns (ok: bool)
      requires Valid()
      modifies `pos
      ensures Valid() && pos >= old(pos)
      ensures match Match(old(Rest()), token)
              case Some(rest) => ok && Rest() == rest && pos >= old(pos) + |token|
              case None => !ok && Rest() == SkipSpace(old(Rest()))
    {
      hide SkipSpace, From, Match, StartsAt;
      SkipWhitespace();
      MatchFrom(old(Rest()), expression, pos, token);
      ok := StartsAt(expression, pos, token);
      if ok {
        pos := pos + |token|;
      }
    }

    /** The operators of a level are tried in order. */
    method AcceptOperator(ops: seq<Op>) returns (op: Option<Op>)
      requires Valid()
      modifies `pos
      ensures Valid() && pos >= old(pos)
      ensures match MatchOperator(old(Rest()), ops)
              case Some((found, rest)) => op == Some(found) && Rest() == rest && pos > old(pos)
              case None => op == None && Rest() == SkipSpace(old(Rest()))
    {
      hide SkipSpace, Match, From, Token;
      SkipWhitespace();
      ghost var start, skipped := old(Rest()), Rest();
      SkipTwice(start);
      MatchOperatorSkips(start, ops);
      assert ops[0..] == ops;
      for k := 0 to |ops|
        invariant Valid() && Rest() == skipped && pos >= old(pos)
        invariant MatchOperator(start, ops) == MatchOperator(skipped, ops[k..])
      {
        assert ops[k..][0] == ops[k] && ops[k..][1..] == ops[k + 1..];
        var ok := Accept(Token(ops[k]));
        if ok {
          return Some(ops[k]);
        }
      }
      op := None;
    }

    /** The outcome of a method and the cursor agree with a parse of the text. */
    ghost predicate Agrees(parse: Parse, r: Result<Value>)
      requires Valid()
      reads this
    {
      match parse
      case Error => r.Failed?
      case Parsed(v, rest) => r == Ok(v) && Rest() == rest
    }

    method ParseBinaryLevel(level: nat) returns (r: Result<Value>)
      requires Valid() && level <= LEVELS
      modifies `pos
      ensures Valid() && Agrees(ParseLevel(env, level, old(Rest())), r)
      decreases |expression| - pos, 3 + LEVELS - level, 0
    {
      hide From, ParseTail, ParseUnary;
      if level == LEVELS {
        r := ParseUnaryExpression();
        return;
      }
      r := ParseBinaryLevel(level + 1);
      if r.Ok? {
        r := ParseBinaryTail(level, r.value);
      }
    }

    /** The loop of a binary level. */
    method ParseBinaryTail(level: nat, first: Value) returns (r: Result<Value>)
      requires Valid() && level < LEVELS
      modifies `pos
      ensures Valid() && Agrees(ParseTail(env, level, first, old(Rest())), r)
      decreases |expression| - pos, 0, 0
    {
      hide From, MatchOperator, Combine, ParseLevel, SkipSpace, Operators;
      var left := first;
      while true
        invariant Valid() && pos >= old(pos)
        invariant ParseTail(env, level, first, old(Rest())) == ParseTail(env, level, left, Rest())
        decreases |expression| - pos
      {
        var op := AcceptOperator(Operators(level));
        if op.None? {
          return Ok(left);
        }
        ghost var here := Rest();
        r := ParseBinaryLevel(level + 1);
        if r.Failed? {
          return;
        }
        assert |Rest()| < |here|;
        left := Combine(op.value, left, r.value);
      }
    }

    method ParseUnaryExpression() returns (r: Result<Value>)
      requires Valid()
      modifies `pos
      ensures Valid() && Agrees(ParseUnary(env, old(Rest())), r)
      decreases |expression| - pos, 2, 0
    {
      hide From, Match, ParsePrimary, SkipSpace;
      ghost var start := old(Rest());
      MatchSkips(start, "-");
      var bang := Accept("!");
      if bang {
        r := ParseUnaryExpression();
        if r.Ok? {
          r := Ok(Not(r.value));
        }
        return;
      }
      var minus := Accept("-");
      if minus {
        r := ParseUnaryExpression();
        if r.Ok? {
          r := Ok(Negate(r.value));
        }
        return;
      }
      PrimarySkips(env, start);
      SkipTwice(start);
      r := ParsePrimaryExpression();
    }

    method ParsePrimaryExpression() returns (r: Result<Value>)
      requires Valid()
      modifies `pos
      ensures Valid() && Agrees(ParsePrimary(env, old(Rest())), r)
      decreases |expression| - pos, 1, 1
    {
      hide From, SkipSpace, ParsePrimaryAt;
      SkipTwice(old(Rest()));
      SkipWhitespace();
      r := ParsePrimaryHere();
    }

    /** A primary whose white space has been passed. */
    method ParsePrimaryHere() returns (r: Result<Value>)
      requires Valid() && SkipSpace(Rest()) == Rest()
      modifies `pos
      ensures Valid() && Agrees(ParsePrimaryAt(env, old(Rest())), r)
      decreases |expression| - pos, 1, 0
    {
      hide From, Match, ParseLevel, SkipSpace, Strtod, NumberEnd, ParseNamed, Closed;
      if pos == |expression| {
        return Failed;
      }
      FromStep(expression, pos);
      var open := Accept("(");
      if open {
        r := ParseParenthesised();
        return;
      }
      var c := expression[pos];
      if IsDigit(c) || c == '.' {
        r := ParseNumber();
      } else if IsIdentStart(c) {
        r := ParseNamedValue();
      } else {
        r := Failed;
      }
    }

    /** What follows an opening parenthesis. */
    method ParseParenthesised() returns (r: Result<Value>)
      requires Valid()
      modifies `pos
      ensures Valid() && Agrees(Closed(ParseLevel(env, 0, old(Rest()))), r)
      decreases |expression| - pos, 4 + LEVELS, 0
    {
      hide From, Match, ParseLevel, SkipSpace;
      r := ParseBinaryLevel(0);
      if r.Ok? {
        var close := Accept(")");
        if !close {
          r := Failed;
        }
      }
    }

    method ParseNumber() returns (r: Result<Value>)
      requires Valid()
      modifies `pos
      ensures Valid()
      ensures r == Ok(Number(Strtod(old(Rest())))) && Rest() == old(Rest())[NumberEnd(old(Rest()))..]
    {
      hide From, Strtod, NumberRun, ExponentEnd;
      var start := pos;
      ScanMantissa();
      ghost var m := pos - start;
      FromDrop(expression, start, m);
      ScanExponent();
      FromDrop(expression, start, pos - start);
      r := Ok(Number(Strtod(From(expression, start))));
    }

    method ScanMantissa()
      requires Valid()
      modifies `pos
      ensures Valid() && pos == old(pos) + NumberRun(old(Rest()))
    {
      hide From;
      while pos < |expression| && (IsDigit(expression[pos]) || expression[pos] == '.')
        invariant old(pos) <= pos <= |expression|
        invariant NumberRun(old(Rest())) == pos - old(pos) + NumberRun(From(expression, pos))
      {
        FromStep(expression, pos);
        pos := pos + 1;
      }
      if pos < |expression| {
        FromStep(expression, pos);
      }
    }

    method ScanDigits()
      requires Valid()
      modifies `pos
      ensures Valid() && pos == old(pos) + DigitRun(old(Rest()))
    {
      hide From;
      while pos < |expression| && IsDigit(expression[pos])
        invariant old(pos) <= pos <= |expression|
        invariant DigitRun(old(Rest())) == pos - old(pos) + DigitRun(From(expression, pos))
      {
        FromStep(expression, pos);
        pos := pos + 1;
      }
      if pos < |expression| {
        FromStep(expression, pos);
      }
    }

    method ScanExponent()
      requires Valid()
      modifies `pos
      ensures Valid() && pos == old(pos) + ExponentEnd(old(Rest()))
    {
      hide From, DigitRun;
      ghost var s := Rest();
      if pos < |expression| {
        FromStep(expression, pos);
      }
      if pos < |expression| && (expression[pos] == 'e' || expression[pos] == 'E') {
        pos := pos + 1;
        if pos < |expression| {
          FromStep(expression, pos);
        }
        if pos < |expression| && (expression[pos] == '+' || expression[pos] == '-') {
          pos := pos + 1;
        }
        FromDrop(expression, old(pos), pos - old(pos));
        ScanDigits();
      }
    }

    method ParseIdentifier() returns (name: Result<string>)
      requires Valid()
      modifies `pos
      ensures Valid()
      ensures var s := SkipSpace(old(Rest()));
              if s == [] || !IsIdentStart(s[0]) then name.Failed?
              else name == Ok(s[..IdentRun(s)]) && Rest() == s[IdentRun(s)..] && pos > old(pos)
    {
      hide From, SkipSpace, IdentRun, IsIdentStart;
      SkipWhitespace();
      if pos < |expression| {
        FromStep(expression, pos);
      }
      if pos == |expression| || !IsIdentStart(expression[pos]) {
        return Failed;
      }
      var start := pos;
      ScanName();
      name := Ok(expression[start..pos]);
    }

    method ScanName()
      requires Valid() && pos < |expression| && IsIdentStart(expression[pos])
      modifies `pos
      ensures Valid() && pos > old(pos)
      ensures var n := IdentRun(old(Rest()));
              expression[old(pos)..pos] == old(Rest())[..n] && Rest() == old(Rest())[n..]
    {
      hide From, IsIdentPart, IdentRun;
      IdentStartIsPart(expression[pos]);
      IdentRunFrom(expression, pos);
      pos := pos + 1;
      while pos < |expression| && IsIdentPart(expression[pos])
        invariant old(pos) < pos <= |expression|
        invariant IdentRun(old(Rest())) == pos - old(pos) + IdentRun(From(expression, pos))
      {
        IdentRunFrom(expression, pos);
        pos := pos + 1;
      }
      IdentRunFrom(expression, pos);
      FromDrop(expression, old(pos), pos - old(pos));
    }

    method ParseNamedValue() returns (r: Result<Value>)
      requires Valid() && Rest() != [] && IsIdentStart(Rest()[0])
      modifies `pos
      ensures Valid() && Agrees(ParseNamed(env, old(Rest())), r)
      decreases |expression| - pos, 0, 0
    {
      hide From, Match, IdentRun, ParseProbe, ParseCall, Lookup, SkipSpace;
      var name := ParseIdentifier();
      if name.value == "null" {
        return Ok(Null);
      }
      if name.value == "true" {
        return Ok(Number(1.0));
      }
      if name.value == "false" {
        return Ok(Number(0.0));
      }
      var open := Accept("(");
      if open {
        if IsProbe(name.value) {
          r := ParseProbeCall(name.value);
        } else {
          r := ParseFunction(name.value);
        }
        return;
      }
      r := Ok(Lookup(env, name.value));
    }

    method ParseProbeCall(probe: string) returns (r: Result<Value>)
      requires Valid()
      modifies `pos
      ensures Valid() && Agrees(ParseProbe(env, probe, old(Rest())), r)
    {
      hide From, Match, SkipSpace, IdentRun, ProbeInput;
      var name := ParseIdentifier();
      if name.Failed? {
        return Failed;
      }
      var close := Accept(")");
      r := if close then Ok(ProbeInput(env, probe, name.value)) else Failed;
    }

    method ParseFunction(name: string) returns (r: Result<Value>)
      requires Valid()
      modifies `pos
      ensures Valid() && Agrees(ParseCall(env, name, old(Rest())), r)
      decreases |expression| - pos, 5 + LEVELS, 0
    {
      hide From, Match, SkipSpace, ParseArgumentList, Apply;
      ghost var start := Rest();
      var close := Accept(")");
      if close {
        return Apply(env, name, []);
      }
      ArgumentsSkip(env, start);
      var args := ParseArgumentValues();
      r := if args.Ok? then Apply(env, name, args.value) else Failed;
    }

    /** The argument loop, up to and including the closing parenthesis. */
    method ParseArgumentValues() returns (args: Result<seq<Value>>)
      requires Valid()
      modifies `pos
      ensures Valid()
      ensures match ParseArgumentList(env, old(Rest()))
              case ListError => args.Failed?
              case ParsedList(values, rest) => args == Ok(values) && Rest() == rest
      decreases |expression| - pos, 4 + LEVELS, 0
    {
      hide From, Match, SkipSpace, ParseArgumentList, ParseLevel;
      var values: seq<Value> := [];
      ghost var all := ParseArgumentList(env, Rest());
      assert all == Prepend([], all);
      while true
        invariant Valid() && pos >= old(pos)
        invariant all == Prepend(values, ParseArgumentList(env, Rest()))
        decreases |expression| - pos
      {
        ghost var here := Rest();
        var r := ParseBinaryLevel(0);
        ArgumentListUnfolds(env, here);
        if r.Failed? {
          return Failed;
        }
        ghost var after, before := Rest(), values;
        values := values + [r.value];
        MatchSkips(after, ",");
        var close := Accept(")");
        if close {
          return Ok(values);
        }
        var comma := Accept(",");
        if !comma {
          return Failed;
        }
        PrependTwice(before, r.value, ParseArgumentList(env, Rest()));
        assert |Rest()| < |here|;
      }
    }

    /** A whole expression. */
    method Parse() returns (r: Result<Value>)
      requires Valid()
      modifies `pos
      ensures r == ParseExpression(env, old(Rest()))
    {
      hide From, ParseLevel, SkipSpace;
      r := ParseBinaryLevel(0);
      if r.Ok? {
        SkipWhitespace();
        if pos != |expression| {
          r := Failed;
        }
      }
    }
  }

  lemma PrependTwice(values: seq<Value>, v: Value, list: ParseList)
    ensures Prepend(values, Prepend([v], list)) == Prepend(values + [v], list)
  {
    if list.ParsedList? {
      assert values + ([v] + list.values) == values + [v] + list.values;
    }
  }

  ghost function Prepend(values: seq<Value>, list: ParseList): ParseList {
    match list
    case ListError => ListError
    case ParsedList(more, rest) => ParsedList(values + more, rest)
  }

  lemma {:induction false} ArgumentListUnfolds(env: Env, text: string)
    ensures ParseArgumentList(env, text) ==
              match ParseLevel(env, 0, text)
              case Error => ListError
              case Parsed(v, rest) =>
                match Match(rest, ")")
                case Some(rest') => ParsedList([v], rest')
                case None =>
                  match Match(rest, ",")
                  case None => ListError
                  case Some(rest') => Prepend([v], ParseArgumentList(env, rest'))
  {
    hide Match, ParseLevel;
  }
}
