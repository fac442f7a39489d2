/** The grammar of rule expressions without inputs: from texts to trees. */
module RuleGrammar {
  import opened Results
  import opened Decimal
  import opened RuleValues
  import opened RuleParser
  import opened RuleSyntax

  /** A tree and the text that is left, or no tree. */
  datatype Tree = Tree(expr: Expr, rest: string) | NoTree

  datatype Trees = Trees(exprs: seq<Expr>, rest: string) | NoTrees

  // ----- the grammar, without inputs -----

  function TreeLevel(level: nat, text: string): (r: Tree)
    requires level <= LEVELS
    ensures r.Tree? ==> |r.rest| < |text|
    decreases |text|, 3 + LEVELS - level
  {
    if level == LEVELS then TreeUnary(text)
    else
      match TreeLevel(level + 1, text)
      case NoTree => NoTree
      case Tree(left, rest) => TreeTail(level, left, rest)
  }

  function TreeTail(level: nat, left: Expr, text: string): (r: Tree)
    requires level < LEVELS
    ensures r.Tree? ==> |r.rest| <= |text|
    decreases |text|, 0
  {
    match MatchOperator(text, Operators(level))
    case None => Tree(left, SkipSpace(text))
    case Some((op, rest)) =>
      match TreeLevel(level + 1, rest)
      case NoTree => NoTree
      case Tree(right, rest') => TreeTail(level, Binary(op, left, right), rest')
  }

  function TreeUnary(text: string): (r: Tree)
    ensures r.Tree? ==> |r.rest| < |text|
    decreases |text|, 2
  {
    match Match(text, "!")
    case Some(rest) => Negated(TreeUnary(rest), true)
    case None =>
      match Match(text, "-")
      case Some(rest) => Negated(TreeUnary(rest), false)
      case None => TreePrimary(SkipSpace(text))
  }

  /** A tree with `!` or `-` in front. */
  function Negated(t: Tree, logical: bool): (r: Tree)
    ensures r.Tree? <==> t.Tree?
    ensures r.Tree? ==> r.rest == t.rest
  {
    match t
    case NoTree => NoTree
    case Tree(e, rest) => Tree(if logical then LogicalNot(e) else Minus(e), rest)
  }

  function TreePrimary(s: string): (r: Tree)
    ensures r.Tree? ==> |r.rest| < |s|
    decreases |s|, 1
  {
    if s == [] then NoTree
    else
      match Match(s, "(")
      case Some(rest) => ClosedTree(TreeLevel(0, rest))
      case None =>
        if IsDigit(s[0]) || s[0] == '.' then Tree(Literal(s[..NumberEnd(s)]), s[NumberEnd(s)..])
        else if IsIdentStart(s[0]) then TreeNamed(s)
        else NoTree
  }

  function ClosedTree(t: Tree): (r: Tree)
    ensures r.Tree? ==> t.Tree? && |r.rest| < |t.rest|
  {
    match t
    case NoTree => NoTree
    case Tree(e, rest) =>
      match Match(rest, ")")
      case None => NoTree
      case Some(rest') => Tree(e, rest')
  }

  function TreeNamed(s: string): (r: Tree)
    requires s != [] && IsIdentStart(s[0])
    ensures r.Tree? ==> |r.rest| < |s|
    decreases |s|, 0
  {
    var n := IdentRun(s);
    var name, rest := s[..n], s[n..];
    if name == "null" then Tree(NullConstant, rest)
    else if name == "true" then Tree(Boolean(true), rest)
    else if name == "false" then Tree(Boolean(false), rest)
    else
      match Match(rest, "(")
      case Some(rest') => if IsProbe(name) then TreeProbe(name, rest') else TreeCall(name, rest')
      case None => Tree(Input(name), SkipSpace(rest))
  }

  function TreeProbe(probe: string, text: string): (r: Tree)
    ensures r.Tree? ==> |r.rest| < |text|
  {
    var s := SkipSpace(text);
    if s == [] || !IsIdentStart(s[0]) then NoTree
    else
      var n := IdentRun(s);
      match Match(s[n..], ")")
      case None => NoTree
      case Some(rest) => Tree(Probe(probe, s[..n]), rest)
  }

  function TreeCall(name: string, text: string): (r: Tree)
    ensures r.Tree? ==> |r.rest| < |text|
    decreases |text|, 5 + LEVELS
  {
    match TreeArguments(text)
    case NoTrees => NoTree
    case Trees(args, rest) => Tree(Call(name, args), rest)
  }

  function TreeArguments(text: string): (r: Trees)
    ensures r.Trees? ==> |r.rest| < |text|
    decreases |text|, 4 + LEVELS, 1
  {
    match Match(text, ")")
    case Some(rest) => Trees([], rest)
    case None => TreeArgumentList(text)
  }

  function TreeArgumentList(text: string): (r: Trees)
    ensures r.Trees? ==> |r.rest| < |text| && r.exprs != []
    decreases |text|, 4 + LEVELS, 0
  {
    match TreeLevel(0, text)
    case NoTree => NoTrees
    case Tree(e, rest) =>
      match Match(rest, ")")
      case Some(rest') => Trees([e], rest')
      case None =>
        match Match(rest, ",")
        case None => NoTrees
        case Some(rest') =>
          match TreeArgumentList(rest')
          case NoTrees => NoTrees
          case Trees(es, rest'') => Trees([e] + es, rest'')
  }

  /** The tree of a whole text. */
  function TreeOf(text: string): Option<Expr> {
    match TreeLevel(0, text)
    case NoTree => None
    case Tree(e, rest) => if SkipSpace(rest) == [] then Some(e) else None
  }
}
