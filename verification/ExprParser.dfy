/** The expression parser: recursive descent down a ladder of precedence levels, on a
    sequence of tokens. */
module ExprParser {

  datatype Kind =
    | Equal
    | PipePipe | AmpAmp | Pipe | Caret | Amp | Arrow | DotDot
    | BangEqual | EqualEqual
    | Greater | GreaterEqual | Less | LessEqual
    | LessLess | GreaterGreater | GreaterGreaterGreater
    | Minus | Plus
    | Slash | Star | Percent
    | StarStar
    | Bang | Tilde
    | LParen | RParen | LBracket | RBracket | LBrace | RBrace
    | Comma | Semicolon | Dot | Colon | FatArrow | At

  /** Reserved words; the last one stands for every token without a use of its own. */
  datatype Reserved =
    | KwModule | KwType | KwConst | KwExport | KwFn | KwLet | KwVar | KwRecord | KwEnum
    | KwIf | KwElse | KwFor | KwIn | KwWhile | KwLoop | KwBreak | KwContinue | KwReturn | KwMatch
    | KwReflect | KwRecurse | KwDistributed | KwInfinite | KwInfer | KwTrain
    | InfiniteLiteral | StringType | Stray

  /** Operators and punctuation, reserved words, and tokens that carry text.  A constant is a
      whole number in decimal or some other numeric literal; a type name is a reserved word
      that begins a type. */
  datatype Token =
    | Mark(kind: Kind)
    | Constant(text: string, whole: bool)
    | Quoted(text: string)
    | Truth(text: string)
    | Symbol(text: string)
    | Identifier(text: string)
    | TypeName(text: string)
    | Word(word: Reserved)

  datatype Expr =
    | Literal(token: Token)
    | Variable(name: Token)
    | Grouping(inner: Expr)
    | Unary(op: Kind, right: Expr)
    | Binary(left: Expr, op: Kind, right: Expr)
    | Call(callee: Expr, arguments: seq<Expr>)
    | FieldAccess(base: Expr, field: Token)
    | Index(base: Expr, index: Expr)
    | Assign(target: Expr, value: Expr)

  /** A tree, what is left of the tokens, and whether no error was reported; an exception;
      or a form of expression that this model leaves out. */
  datatype Parsed = Parsed(expr: Expr, rest: seq<Token>, clean: bool) | Thrown | LeftOut

  datatype ParsedList = ParsedList(exprs: seq<Expr>, rest: seq<Token>, clean: bool) | ListThrown | ListLeftOut

  // ---------- the ladder

  /** Levels from `||` to `**`; level 13 is unary, and 14 primary with its postfixes. */
  const RANGE := 6
  const EXPONENT := 12
  const UNARY := 13
  const PRIMARY := 14

  function LevelOf(k: Kind): int {
    match k
    case PipePipe => 0
    case AmpAmp => 1
    case Pipe => 2
    case Caret => 3
    case Amp => 4
    case Arrow => 5
    case DotDot => 6
    case BangEqual | EqualEqual => 7
    case Greater | GreaterEqual | Less | LessEqual => 8
    case LessLess | GreaterGreater | GreaterGreaterGreater => 9
    case Minus | Plus => 10
    case Slash | Star | Percent => 11
    case StarStar => 12
    case _ => -1
  }

  predicate IsPrefix(k: Kind) {
    k.Bang? || k.Minus? || k.Tilde?
  }

  predicate Next(ts: seq<Token>, k: Kind) {
    ts != [] && ts[0] == Mark(k)
  }

  /** The next token is an operator of this level. */
  predicate NextOp(ts: seq<Token>, level: int) {
    ts != [] && ts[0].Mark? && LevelOf(ts[0].kind) == level
  }

  predicate NextPrefix(ts: seq<Token>) {
    ts != [] && ts[0].Mark? && IsPrefix(ts[0].kind)
  }

  // ---------- identifiers

  predicate IsUpper(c: char) {
    'A' <= c <= 'Z'
  }

  function Dots(s: string): nat {
    if s == [] then 0 else (if s[0] == '.' then 1 else 0) + Dots(s[1..])
  }

  function DotAt(s: string): nat {
    if s == [] || s[0] == '.' then 0 else 1 + DotAt(s[1..])
  }

  /** `try_parse_enum_literal`: one dot inside, a capital on either side. */
  predicate IsEnumName(s: string) {
    Dots(s) == 1 && (var d := DotAt(s); 0 < d && d + 1 < |s| && IsUpper(s[0]) && IsUpper(s[d + 1]))
  }

  /** `is_type_start_token`: what follows `[` looks like a type, which a type keyword, a
      capitalized name and a quoted string do. */
  predicate LooksLikeType(ts: seq<Token>) {
    ts != [] && (ts[0].TypeName? || ts[0].Quoted? || (ts[0].Identifier? && ts[0].text != "" && IsUpper(ts[0].text[0])))
  }

  /** Reserved words that can name a field. */
  predicate Segment(w: Reserved) {
    !(w.KwRecurse? || w.KwDistributed? || w.KwInfinite? || w.KwInfer? || w.KwTrain? || w.InfiniteLiteral? || w.Stray?)
  }

  /** Reserved words that begin a form of expression of their own. */
  predicate Opens(w: Reserved) {
    w.KwMatch? || w.KwIf? || w.KwInfer? || w.InfiniteLiteral?
  }

  /** `is_dot_field_segment_token`. */
  predicate NamesField(t: Token) {
    t.Identifier? || t.Truth? || t.TypeName? || (t.Word? && Segment(t.word))
  }

  predicate IsTarget(e: Expr) {
    e.Variable? || e.Index? || e.FieldAccess?
  }

  // ---------- the parser

  /** `expression`, that is `assignment`. */
  function Expression(ts: seq<Token>): (r: Parsed)
    ensures r.Parsed? ==> |r.rest| < |ts|
    decreases |ts|, 20
  {
    match Level(0, ts)
    case Parsed(e, rest, clean) =>
      if Next(rest, Equal) then
        match Expression(rest[1..])
        case Parsed(v, rest', clean') =>
          if IsTarget(e) then Parsed(Assign(e, v), rest', clean && clean')
          else Parsed(e, rest', false)
        case stop => stop
      else Parsed(e, rest, clean)
    case stop => stop
  }

  /** One rung: `logical_or` down to `exponent`, and `unary` below. */
  function Level(n: nat, ts: seq<Token>): (r: Parsed)
    requires n <= UNARY
    ensures r.Parsed? ==> |r.rest| < |ts|
    decreases |ts|, UNARY - n + 2
  {
    if n == UNARY then UnaryLevel(ts)
    else
      match Level(n + 1, ts)
      case Parsed(e, rest, clean) =>
        if n == RANGE then RangeEnd(e, rest, clean)
        else if n == EXPONENT then ExponentEnd(e, rest, clean)
        else Loop(n, e, rest, clean)
      case stop => stop
  }

  /** At most one `..`. */
  function RangeEnd(e: Expr, ts: seq<Token>, clean: bool): (r: Parsed)
    ensures r.Parsed? ==> |r.rest| <= |ts|
    decreases |ts|, 1
  {
    if !NextOp(ts, RANGE) then Parsed(e, ts, clean)
    else
      match Level(RANGE + 1, ts[1..])
      case Parsed(right, rest, clean') => Parsed(Binary(e, ts[0].kind, right), rest, clean && clean')
      case stop => stop
  }

  /** `**` associates to the right. */
  function ExponentEnd(e: Expr, ts: seq<Token>, clean: bool): (r: Parsed)
    ensures r.Parsed? ==> |r.rest| <= |ts|
    decreases |ts|, 1
  {
    if !NextOp(ts, EXPONENT) then Parsed(e, ts, clean)
    else
      match Level(EXPONENT, ts[1..])
      case Parsed(right, rest, clean') => Parsed(Binary(e, ts[0].kind, right), rest, clean && clean')
      case stop => stop
  }

  /** Operators of one level, to the left. */
  function Loop(n: nat, e: Expr, ts: seq<Token>, clean: bool): (r: Parsed)
    requires n < UNARY
    ensures r.Parsed? ==> |r.rest| <= |ts|
    decreases |ts|, 1
  {
    if !NextOp(ts, n) then Parsed(e, ts, clean)
    else
      match Level(n + 1, ts[1..])
      case Parsed(right, rest, clean') => Loop(n, Binary(e, ts[0].kind, right), rest, clean && clean')
      case stop => stop
  }

  function UnaryLevel(ts: seq<Token>): (r: Parsed)
    ensures r.Parsed? ==> |r.rest| < |ts|
    decreases |ts|, 1
  {
    if NextPrefix(ts) then
      match UnaryLevel(ts[1..])
      case Parsed(right, rest, clean) => Parsed(Unary(ts[0].kind, right), rest, clean)
      case stop => stop
    else Primary(ts)
  }

  function Primary(ts: seq<Token>): (r: Parsed)
    ensures r.Parsed? ==> |r.rest| < |ts|
    decreases |ts|, 0
  {
    if ts == [] then Thrown
    else match ts[0]
      case Constant(_, _) => Postfix(Literal(ts[0]), ts[1..], true)
      case Quoted(_) => Postfix(Literal(ts[0]), ts[1..], true)
      case Truth(_) => Postfix(Literal(ts[0]), ts[1..], true)
      case Symbol(_) => Postfix(Literal(ts[0]), ts[1..], true)
      case Identifier(name) =>
        if IsEnumName(name) || Next(ts[1..], LBrace) then LeftOut
        else if Next(ts[1..], LBracket) && LooksLikeType(ts[2..]) then LeftOut
        else Postfix(Variable(ts[0]), ts[1..], true)
      case Mark(k) =>
        if k.LParen? then
          match Expression(ts[1..])
          case Parsed(e, rest, clean) =>
            if Next(rest, RParen) then Postfix(Grouping(e), rest[1..], clean) else Thrown
          case stop => stop
        else if k.LBracket? || k.LBrace? then LeftOut
        else Thrown
      case TypeName(_) => LeftOut
      case Word(w) => if Opens(w) then LeftOut else Thrown
  }

  /** Calls, fields and indices. */
  function Postfix(e: Expr, ts: seq<Token>, clean: bool): (r: Parsed)
    ensures r.Parsed? ==> |r.rest| <= |ts|
    decreases |ts|, 0
  {
    if Next(ts, Dot) then
      if |ts| > 1 && NamesField(ts[1]) then Postfix(FieldAccess(e, ts[1]), ts[2..], clean) else Thrown
    else if Next(ts, LParen) then
      if Next(ts[1..], RParen) then Postfix(Call(e, []), ts[2..], clean)
      else match Arguments(ts[1..])
        case ParsedList(arguments, rest, clean') =>
          if Next(rest, RParen) then Postfix(Call(e, arguments), rest[1..], clean && clean') else Thrown
        case ListThrown => Thrown
        case ListLeftOut => LeftOut
    else if Next(ts, LBracket) then
      match Expression(ts[1..])
      case Parsed(i, rest, clean') =>
        if Next(rest, RBracket) then Postfix(Index(e, i), rest[1..], clean && clean') else Thrown
      case stop => stop
    else Parsed(e, ts, clean)
  }

  /** Expressions separated by commas. */
  function Arguments(ts: seq<Token>): (r: ParsedList)
    ensures r.ParsedList? ==> |r.rest| < |ts| && r.exprs != []
    decreases |ts|, 21
  {
    match Expression(ts)
    case Thrown => ListThrown
    case LeftOut => ListLeftOut
    case Parsed(e, rest, clean) =>
      if Next(rest, Comma) then
        match Arguments(rest[1..])
        case ParsedList(es, rest', clean') => ParsedList([e] + es, rest', clean && clean')
        case stop => stop
      else ParsedList([e], rest, clean)
  }

  // ---------- printing

  /** The tokens of an expression, followed by `tail`. */
  function Print(e: Expr, tail: seq<Token>): (ts: seq<Token>)
    ensures |ts| > |tail|
    decreases e
  {
    match e
    case Literal(t) => [t] + tail
    case Variable(t) => [t] + tail
    case Grouping(i) => [Mark(LParen)] + Print(i, [Mark(RParen)] + tail)
    case Unary(k, r) => [Mark(k)] + Print(r, tail)
    case Binary(l, k, r) => Print(l, [Mark(k)] + Print(r, tail))
    case Call(c, args) => Print(c, [Mark(LParen)] + PrintAll(args, [Mark(RParen)] + tail))
    case FieldAccess(o, f) => Print(o, [Mark(Dot)] + ([f] + tail))
    case Index(o, i) => Print(o, [Mark(LBracket)] + Print(i, [Mark(RBracket)] + tail))
    case Assign(t, v) => Print(t, [Mark(Equal)] + Print(v, tail))
  }

  function PrintAll(es: seq<Expr>, tail: seq<Token>): (ts: seq<Token>)
    ensures |ts| >= |tail|
    decreases es
  {
    if es == [] then tail
    else if |es| == 1 then Print(es[0], tail)
    else Print(es[0], [Mark(Comma)] + PrintAll(es[1..], tail))
  }

  // ---------- trees that respect the levels

  /** The tree can stand at level `n`: operators of a level or above, operands of the level
      above, on the side to which the operator associates of the same level. */
  predicate Fits(n: int, e: Expr)
    decreases e
  {
    match e
    case Literal(t) => t.Constant? || t.Quoted? || t.Truth? || t.Symbol?
    case Variable(t) => t.Identifier? && !IsEnumName(t.text)
    case Grouping(i) => Fits(-1, i)
    case Unary(k, r) => n <= UNARY && IsPrefix(k) && Fits(UNARY, r)
    case Binary(l, k, r) =>
      var m := LevelOf(k);
      && n <= m && 0 <= m
      && Fits(if m == RANGE || m == EXPONENT then m + 1 else m, l)
      && Fits(if m == EXPONENT then m else m + 1, r)
    case Call(c, args) => Fits(PRIMARY, c) && forall i :: 0 <= i < |args| ==> Fits(-1, args[i])
    case FieldAccess(o, f) => Fits(PRIMARY, o) && NamesField(f)
    case Index(o, i) => Fits(PRIMARY, o) && Fits(-1, i) && (o.Variable? ==> !LooksLikeType(Print(i, [])))
    case Assign(t, v) => n <= -1 && IsTarget(t) && Fits(0, t) && Fits(-1, v)
  }

  /** What may follow an expression that is read at level `n` and is to end there. */
  predicate Ends(n: int, tail: seq<Token>) {
    tail != [] && tail[0].Mark? ==>
      var k := tail[0].kind;
      && !k.LParen? && !k.LBracket? && !k.Dot? && !k.LBrace?
      && (LevelOf(k) >= 0 ==> LevelOf(k) < n)
      && (k.Equal? ==> 0 <= n)
  }
}
