/** The whole parser: declarations, statements, blocks, match expressions with their
    patterns, types and attributes, over the expression ladder.  Every function reads a
    fixed sequence of tokens from a position on and says where it stops; a function that
    returns has moved on, one that throws has reported an error, and the loops that recover
    from errors never throw. */
module Grammar {
  import opened Wrappers
  import opened ExprParser

  /** The next token to read, and the errors reported so far. */
  datatype State = State(pos: nat, errors: nat)

  /** How a function ends: it returns, or it throws.  The flag of an expression says whether
      it may be assigned to, that of attributes whether there were any, and that of an item
      of a block whether it is the last one. */
  datatype Out = Done(s: State, flag: bool) | Threw(s: State) {
    predicate IsFailure() {
      Threw?
    }

    function PropagateFailure(): Out
      requires IsFailure()
    {
      this
    }

    function Extract(): State
      requires !IsFailure()
    {
      s
    }
  }

  /** Token types, as far as the parser tells them apart outside expressions. */
  datatype Class = Punct(kind: Kind) | Keyword(word: Reserved) | Name | Whole | Literals | TypeWord

  function ClassOf(t: Token): Class {
    match t
    case Mark(k) => Punct(k)
    case Word(w) => Keyword(w)
    case Identifier(_) => Name
    case TypeName(_) => TypeWord
    case Constant(_, whole) => if whole then Whole else Literals
    case _ => Literals
  }

  /** It stopped inside the tokens, and threw only with an error. */
  predicate Stays(ts: seq<Token>, s: State, r: Out) {
    s.pos <= r.s.pos <= |ts| && s.errors <= r.s.errors && (r.Threw? ==> s.errors < r.s.errors)
  }

  /** Moreover it consumed a token if it returned. */
  predicate Moves(ts: seq<Token>, s: State, r: Out) {
    Stays(ts, s, r) && (r.Done? ==> s.pos < r.s.pos)
  }

  /** A loop that recovers by itself stopped further on. */
  predicate Reaches(ts: seq<Token>, s: State, t: State) {
    s.pos <= t.pos <= |ts| && s.errors <= t.errors
  }

  // ---------- tokens

  predicate AtEnd(ts: seq<Token>, s: State) {
    s.pos >= |ts|
  }

  predicate Check(ts: seq<Token>, s: State, c: Class) {
    s.pos < |ts| && ClassOf(ts[s.pos]) == c
  }

  function Advance(s: State): State {
    s.(pos := s.pos + 1)
  }

  function Error(s: State): State {
    s.(errors := s.errors + 1)
  }

  function Consume(ts: seq<Token>, s: State, c: Class): (r: Out)
    requires s.pos <= |ts|
    ensures Moves(ts, s, r) && (r.Done? <==> Check(ts, s, c))
    ensures r.s == (if r.Done? then Advance(s) else Error(s))
  {
    if Check(ts, s, c) then Done(Advance(s), false) else Threw(Error(s))
  }

  /** The token after the next one is a name, and this is it. */
  function NameAfter(ts: seq<Token>, s: State): Option<string> {
    if s.pos + 1 < |ts| && ts[s.pos + 1].Identifier? then Some(ts[s.pos + 1].text) else None
  }

  predicate Separates(ts: seq<Token>, s: State) {
    Check(ts, s, Punct(Comma)) || Check(ts, s, Punct(Semicolon))
  }

  // ---------- error recovery

  predicate Boundary(t: Token) {
    t.Word? && (t.word.KwFn? || t.word.KwLet? || t.word.KwVar? || t.word.KwFor? || t.word.KwIf? || t.word.KwWhile? ||
                t.word.KwReturn?)
  }

  /** `synchronize`: one token at least, then up to a boundary. */
  function Synchronize(ts: seq<Token>, s: State): (t: State)
    requires s.pos <= |ts|
    ensures Reaches(ts, s, t) && (s.pos < |ts| ==> s.pos < t.pos) && t.errors == s.errors
  {
    if AtEnd(ts, s) then s else Scan(ts, Advance(s))
  }

  function Scan(ts: seq<Token>, s: State): (t: State)
    requires 0 < s.pos <= |ts|
    ensures Reaches(ts, s, t) && t.errors == s.errors
    decreases |ts| - s.pos
  {
    if AtEnd(ts, s) || ts[s.pos - 1] == Mark(Semicolon) || Boundary(ts[s.pos]) then s else Scan(ts, Advance(s))
  }

  /** Up to a closing brace, the end, or one of the separators. */
  function Skip(ts: seq<Token>, s: State, commas: bool): (t: State)
    requires s.pos <= |ts|
    ensures Reaches(ts, s, t) && t.errors == s.errors
    ensures AtEnd(ts, t) || Check(ts, t, Punct(RBrace)) || Check(ts, t, Punct(Semicolon)) ||
            (commas && Check(ts, t, Punct(Comma)))
    ensures forall i :: s.pos <= i < t.pos ==> ts[i] != Mark(RBrace)
    decreases |ts| - s.pos
  {
    if AtEnd(ts, s) || Check(ts, s, Punct(RBrace)) || Check(ts, s, Punct(Semicolon)) ||
        (commas && Check(ts, s, Punct(Comma))) then s
    else Skip(ts, Advance(s), commas)
  }

  /** And past the separator, if there is one: it discards no closing brace, and it discards
      something unless it starts at one or at the end. */
  function SkipPast(ts: seq<Token>, s: State, commas: bool): (t: State)
    requires s.pos <= |ts|
    ensures Reaches(ts, s, t) && t.errors == s.errors
    ensures forall i :: s.pos <= i < t.pos ==> ts[i] != Mark(RBrace)
    ensures s.pos == t.pos ==> AtEnd(ts, s) || Check(ts, s, Punct(RBrace))
  {
    var t := Skip(ts, s, commas);
    if AtEnd(ts, t) || Check(ts, t, Punct(RBrace)) then t else Advance(t)
  }

  // ---------- numbers and attributes

  function Digits(text: string, value: nat): nat {
    if text != "" && '0' <= text[0] <= '9' then Digits(text[1..], value * 10 + (text[0] - '0') as nat) else value
  }

  /** `std::stoll` of a decimal literal; `None` is its exception. */
  function Stoll(text: string): Option<nat> {
    if text == "" || !('0' <= text[0] <= '9') then None
    else
      var value := Digits(text, 0);
      if value < 0x8000_0000_0000_0000 then Some(value) else None
  }

  /** The whole number at a position. */
  function NumberAt(ts: seq<Token>, s: State): Option<nat> {
    if s.pos < |ts| && ts[s.pos].Constant? then Stoll(ts[s.pos].text) else None
  }

  /** The name of the attribute ahead, if it decorates records and enums. */
  predicate StructuralAhead(ts: seq<Token>, s: State) {
    Check(ts, s, Punct(At)) && (NameAfter(ts, s) == Some("schema") || NameAfter(ts, s) == Some("module"))
  }

  /** One attribute; a second schema version or module path is an error.  The flag says
      whether a valid version was given. */
  function StructuralAttribute(ts: seq<Token>, s: State, schema: bool, path: bool): (r: Out)
    requires s.pos <= |ts| && StructuralAhead(ts, s)
    ensures Moves(ts, s, r)
  {
    var s1 :- Consume(ts, Advance(Advance(s)), Punct(LParen));
    if NameAfter(ts, s) == Some("schema") then
      var version := VersionValue(ts, s1, schema);
      var s2 :- version;
      var s3 :- Consume(ts, s2, Punct(RParen));
      Done(s3, version.flag)
    else
      var s2 :- PathValue(ts, s1, path);
      Consume(ts, s2, Punct(RParen))
  }

  function VersionValue(ts: seq<Token>, s: State, given: bool): (r: Out)
    requires s.pos <= |ts|
    ensures Moves(ts, s, r)
  {
    var s1 := if given then Error(s) else s;
    var s2 :- Consume(ts, s1, Whole);
    var version := NumberAt(ts, s1);
    var good := version.Some? && version.value > 0;
    Done(if good then s2 else Error(s2), good)
  }

  function PathValue(ts: seq<Token>, s: State, given: bool): (r: Out)
    requires s.pos <= |ts|
    ensures Moves(ts, s, r)
  {
    var s1 :- Consume(ts, if given then Error(s) else s, Name);
    PathSegments(ts, s1)
  }

  /** `parse_structural_attributes`. */
  function StructuralAttributes(ts: seq<Token>, s: State, seen: bool, schema: bool, path: bool): (r: Out)
    requires s.pos <= |ts|
    ensures Stays(ts, s, r) && (r.Done? && r.flag && !seen ==> s.pos < r.s.pos)
    decreases |ts| - s.pos
  {
    if !StructuralAhead(ts, s) then Done(s, seen)
    else
      var r := StructuralAttribute(ts, s, schema, path);
      var s1 :- r;
      StructuralAttributes(ts, s1, true, schema || r.flag, path || NameAfter(ts, s) == Some("module"))
  }

  function PathSegments(ts: seq<Token>, s: State): (r: Out)
    requires s.pos <= |ts|
    ensures Stays(ts, s, r)
    decreases |ts| - s.pos
  {
    if !Check(ts, s, Punct(Dot)) then Done(s, false)
    else
      var s1 :- Consume(ts, Advance(s), Name);
      PathSegments(ts, s1)
  }

  predicate FunctionalAhead(ts: seq<Token>, s: State) {
    Check(ts, s, Punct(At)) && NameAfter(ts, s) == Some("tier")
  }

  /** One tier, from 1 to 5; the flag says whether it is valid. */
  function FunctionAttribute(ts: seq<Token>, s: State, tier: bool): (r: Out)
    requires s.pos <= |ts| && FunctionalAhead(ts, s)
    ensures Moves(ts, s, r)
  {
    var s1 :- Consume(ts, Advance(Advance(s)), Punct(LParen));
    var s2 := if tier then Error(s1) else s1;
    var s3 :- Consume(ts, s2, Whole);
    var value := NumberAt(ts, s2);
    var good := value.Some? && 1 <= value.value <= 5;
    var s4 :- Consume(ts, if good then s3 else Error(s3), Punct(RParen));
    Done(s4, good)
  }

  /** `parse_function_attributes`. */
  function FunctionAttributes(ts: seq<Token>, s: State, seen: bool, tier: bool): (r: Out)
    requires s.pos <= |ts|
    ensures Stays(ts, s, r) && (r.Done? && r.flag && !seen ==> s.pos < r.s.pos)
    decreases |ts| - s.pos
  {
    if !FunctionalAhead(ts, s) then Done(s, seen)
    else
      var r := FunctionAttribute(ts, s, tier);
      var s1 :- r;
      FunctionAttributes(ts, s1, true, tier || r.flag)
  }

  // ---------- types

  predicate TypeStarts(ts: seq<Token>, s: State) {
    s.pos < |ts| && (ts[s.pos].Identifier? || ts[s.pos].TypeName? || ts[s.pos].Quoted?)
  }

  /** `type`: reports an error and returns where no type begins. */
  function TypeExpr(ts: seq<Token>, s: State): (r: Out)
    requires s.pos <= |ts|
    ensures Stays(ts, s, r) && (r.Done? && TypeStarts(ts, s) ==> s.pos < r.s.pos)
    decreases |ts| - s.pos, 0
  {
    if !TypeStarts(ts, s) then Done(Error(s), false)
    else
      var s1 := Advance(s);
      if Check(ts, s1, Punct(Less)) then Done(Error(s1), false)
      else if Check(ts, s1, Punct(LBracket)) then GenericType(ts, s1, ts[s.pos] == Identifier("Result"))
      else Done(s1, false)
  }

  /** `parse_generic_type`; the second parameter of a `Result` is always a type. */
  function GenericType(ts: seq<Token>, s: State, result: bool): (r: Out)
    requires s.pos <= |ts|
    ensures Moves(ts, s, r)
    decreases |ts| - s.pos, 0
  {
    var s1 :- Consume(ts, s, Punct(LBracket));
    var s2 :- Parameter(ts, s1, false);
    var s3 :- MoreParameters(ts, s2, result, 1);
    Consume(ts, s3, Punct(RBracket))
  }

  function Parameter(ts: seq<Token>, s: State, asType: bool): (r: Out)
    requires s.pos <= |ts|
    ensures Stays(ts, s, r)
    decreases |ts| - s.pos, 18
  {
    if asType || TypeStarts(ts, s) then TypeExpr(ts, s) else Expression(ts, s)
  }

  function MoreParameters(ts: seq<Token>, s: State, result: bool, count: nat): (r: Out)
    requires s.pos <= |ts|
    ensures Stays(ts, s, r)
    decreases |ts| - s.pos, 0
  {
    if !Check(ts, s, Punct(Comma)) then Done(s, false)
    else
      var s1 := Advance(s);
      if Check(ts, s1, Punct(RBracket)) then Done(Error(s1), false)
      else if count >= 8 then Done(ToBracket(ts, Error(s1)), false)
      else
        var s2 :- Parameter(ts, s1, result && count == 1);
        MoreParameters(ts, s2, result, count + 1)
  }

  function ToBracket(ts: seq<Token>, s: State): (t: State)
    requires s.pos <= |ts|
    ensures Reaches(ts, s, t) && t.errors == s.errors
    decreases |ts| - s.pos
  {
    if AtEnd(ts, s) || Check(ts, s, Punct(RBracket)) then s else ToBracket(ts, Advance(s))
  }

  // ---------- expressions

  /** `expression`, that is `assignment`. */
  function Expression(ts: seq<Token>, s: State): (r: Out)
    requires s.pos <= |ts|
    ensures Moves(ts, s, r)
    decreases |ts| - s.pos, 17
  {
    var left := Level(0, ts, s);
    if left.Threw? || !Check(ts, left.s, Punct(Equal)) then left
    else
      var s1 :- Expression(ts, Advance(left.s));
      Done(if left.flag then s1 else Error(s1), false)
  }

  predicate Operator(ts: seq<Token>, s: State, n: nat) {
    s.pos < |ts| && ts[s.pos].Mark? && LevelOf(ts[s.pos].kind) == n
  }

  predicate Prefix(ts: seq<Token>, s: State) {
    s.pos < |ts| && ts[s.pos].Mark? && IsPrefix(ts[s.pos].kind)
  }

  /** The rungs of the ladder. */
  function Level(n: nat, ts: seq<Token>, s: State): (r: Out)
    requires n <= UNARY && s.pos <= |ts|
    ensures Moves(ts, s, r)
    decreases |ts| - s.pos, UNARY - n + 3
  {
    if n == UNARY then UnaryLevel(ts, s)
    else
      var left := Level(n + 1, ts, s);
      if left.Threw? then left else Operators(n, ts, left.s, left.flag)
  }

  /** The operators of a rung: a range has at most one, `**` takes the rest to its right. */
  function Operators(n: nat, ts: seq<Token>, s: State, target: bool): (r: Out)
    requires n < UNARY && s.pos <= |ts|
    ensures Stays(ts, s, r)
    decreases |ts| - s.pos, 1
  {
    if !Operator(ts, s, n) then Done(s, target)
    else
      var s1 :- Level(if n == EXPONENT then n else n + 1, ts, Advance(s));
      if n == RANGE || n == EXPONENT then Done(s1, false) else Operators(n, ts, s1, false)
  }

  function UnaryLevel(ts: seq<Token>, s: State): (r: Out)
    requires s.pos <= |ts|
    ensures Moves(ts, s, r)
    decreases |ts| - s.pos, 2
  {
    if Prefix(ts, s) then
      var s1 :- UnaryLevel(ts, Advance(s));
      Done(s1, false)
    else Primary(ts, s)
  }

  function Primary(ts: seq<Token>, s: State): (r: Out)
    requires s.pos <= |ts|
    ensures Moves(ts, s, r)
    decreases |ts| - s.pos, 1
  {
    if AtEnd(ts, s) then Threw(Error(s))
    else match ts[s.pos]
      case Constant(_, _) => Postfix(ts, Advance(s), false)
      case Quoted(_) => Postfix(ts, Advance(s), false)
      case Truth(_) => Postfix(ts, Advance(s), false)
      case Symbol(_) => Postfix(ts, Advance(s), false)
      case Identifier(name) => NameExpression(ts, s)
      case TypeName(_) =>
        var s1 :- TypeExpr(ts, s);
        Postfix(ts, s1, false)
      case Mark(k) =>
        if k.LParen? then
          var s1 :- Expression(ts, Advance(s));
          var s2 :- Consume(ts, s1, Punct(RParen));
          Postfix(ts, s2, false)
        else if k.LBracket? then
          var s1 :- VectorLiteral(ts, Advance(s));
          Postfix(ts, s1, false)
        else if k.LBrace? then BlockExpression(ts, s)
        else Threw(Error(s))
      case Word(w) =>
        if w.KwMatch? then MatchExpression(ts, Advance(s))
        else if w.KwIf? then IfExpression(ts, s)
        else if w.InfiniteLiteral? then
          var s1 :- Consume(ts, Advance(s), Punct(LBrace));
          var s2 :- Expression(ts, s1);
          var s3 :- Consume(ts, s2, Punct(RBrace));
          Postfix(ts, s3, false)
        else if w.KwInfer? then
          var s1 :- Expression(ts, Advance(s));
          Postfix(ts, s1, false)
        else Threw(Error(s))
  }

  /** The next token looks like a type. */
  predicate TypeLike(ts: seq<Token>, i: nat) {
    i < |ts| && (ts[i].TypeName? || ts[i].Quoted? || (ts[i].Identifier? && ts[i].text != "" && IsUpper(ts[i].text[0])))
  }

  /** What begins with a name: an enum value, a generic type, a record, or a variable. */
  function NameExpression(ts: seq<Token>, s: State): (r: Out)
    requires s.pos < |ts| && ts[s.pos].Identifier?
    ensures Moves(ts, s, r)
    decreases |ts| - s.pos, 0
  {
    var s1 := Advance(s);
    if IsEnumName(ts[s.pos].text) then
      if !Check(ts, s1, Punct(LParen)) then Done(s1, false)
      else
        var s2 :- Expression(ts, Advance(s1));
        Consume(ts, s2, Punct(RParen))
    else if Check(ts, s1, Punct(LBracket)) && TypeLike(ts, s1.pos + 1) then
      var s2 :- GenericType(ts, s1, ts[s.pos] == Identifier("Result"));
      Postfix(ts, s2, false)
    else if Check(ts, s1, Punct(LBrace)) then RecordLiteral(ts, Advance(s1))
    else Postfix(ts, s1, true)
  }

  /** After the opening bracket: nothing, one element repeated, or elements with commas. */
  function VectorLiteral(ts: seq<Token>, s: State): (r: Out)
    requires s.pos <= |ts|
    ensures Moves(ts, s, r)
    decreases |ts| - s.pos, 18
  {
    if Check(ts, s, Punct(RBracket)) then Done(Advance(s), false)
    else
      var s1 :- Expression(ts, s);
      var s2 :- if Check(ts, s1, Punct(Semicolon)) then Expression(ts, Advance(s1)) else Elements(ts, s1);
      Consume(ts, s2, Punct(RBracket))
  }

  /** Further elements; a trailing comma is allowed. */
  function Elements(ts: seq<Token>, s: State): (r: Out)
    requires s.pos <= |ts|
    ensures Stays(ts, s, r)
    decreases |ts| - s.pos, 0
  {
    if !Check(ts, s, Punct(Comma)) then Done(s, false)
    else if Check(ts, Advance(s), Punct(RBracket)) then Done(Advance(s), false)
    else
      var s1 :- Expression(ts, Advance(s));
      Elements(ts, s1)
  }

  /** Calls, fields and indices. */
  function Postfix(ts: seq<Token>, s: State, target: bool): (r: Out)
    requires s.pos <= |ts|
    ensures Stays(ts, s, r)
    decreases |ts| - s.pos, 0
  {
    var s1 := Advance(s);
    if Check(ts, s, Punct(Dot)) then
      if s1.pos < |ts| && NamesField(ts[s1.pos]) then Postfix(ts, Advance(s1), true) else Threw(Error(s1))
    else if Check(ts, s, Punct(LParen)) then
      var s2 :- if Check(ts, s1, Punct(RParen)) then Done(s1, false) else Arguments(ts, s1);
      var s3 :- Consume(ts, s2, Punct(RParen));
      Postfix(ts, s3, false)
    else if Check(ts, s, Punct(LBracket)) then
      var s2 :- Expression(ts, s1);
      var s3 :- Consume(ts, s2, Punct(RBracket));
      Postfix(ts, s3, true)
    else Done(s, target)
  }

  function Arguments(ts: seq<Token>, s: State): (r: Out)
    requires s.pos <= |ts|
    ensures Moves(ts, s, r)
    decreases |ts| - s.pos, 18
  {
    var s1 :- Expression(ts, s);
    if Check(ts, s1, Punct(Comma)) then Arguments(ts, Advance(s1)) else Done(s1, false)
  }

  /** After the opening brace. */
  function RecordLiteral(ts: seq<Token>, s: State): (r: Out)
    requires s.pos <= |ts|
    ensures Moves(ts, s, r) && (r.Done? ==> !r.flag)
    decreases |ts| - s.pos, 1
  {
    var s1 :- FieldValues(ts, s);
    Consume(ts, s1, Punct(RBrace))
  }

  function FieldValues(ts: seq<Token>, s: State): (r: Out)
    requires s.pos <= |ts|
    ensures Stays(ts, s, r)
    decreases |ts| - s.pos, 0
  {
    if Check(ts, s, Punct(RBrace)) then Done(s, false)
    else
      var s1 :- Consume(ts, s, Name);
      var s2 :- Consume(ts, s1, Punct(Colon));
      var s3 :- Expression(ts, s2);
      if Separates(ts, s3) then FieldValues(ts, Advance(s3)) else Done(s3, false)
  }

  function IfExpression(ts: seq<Token>, s: State): (r: Out)
    requires s.pos <= |ts|
    ensures Moves(ts, s, r) && (r.Done? ==> !r.flag)
    decreases |ts| - s.pos, 0
  {
    var s1 :- Consume(ts, s, Keyword(KwIf));
    var s2 :- Condition(ts, s1);
    var s3 :- BlockExpression(ts, s2);
    ElseExpression(ts, s3)
  }

  function Condition(ts: seq<Token>, s: State): (r: Out)
    requires s.pos <= |ts|
    ensures Moves(ts, s, r)
    decreases |ts| - s.pos, 0
  {
    var s1 :- Consume(ts, s, Punct(LParen));
    var s2 :- Expression(ts, s1);
    Consume(ts, s2, Punct(RParen))
  }

  function ElseExpression(ts: seq<Token>, s: State): (r: Out)
    requires s.pos <= |ts|
    ensures Stays(ts, s, r) && (r.Done? ==> !r.flag)
    decreases |ts| - s.pos, 0
  {
    if !Check(ts, s, Keyword(KwElse)) then Done(s, false)
    else if Check(ts, Advance(s), Keyword(KwIf)) then IfExpression(ts, Advance(s))
    else BlockExpression(ts, Advance(s))
  }

  function BlockExpression(ts: seq<Token>, s: State): (r: Out)
    requires s.pos <= |ts|
    ensures Moves(ts, s, r) && (r.Done? ==> !r.flag)
    decreases |ts| - s.pos, 0
  {
    var s1 :- Consume(ts, s, Punct(LBrace));
    Block(ts, s1)
  }

  // ---------- match expressions

  /** After `match`. */
  function MatchExpression(ts: seq<Token>, s: State): (r: Out)
    requires s.pos <= |ts|
    ensures Moves(ts, s, r) && (r.Done? ==> !r.flag)
    decreases |ts| - s.pos, 1
  {
    var s1 :- Condition(ts, s);
    var s2 :- Consume(ts, s1, Punct(LBrace));
    Consume(ts, MatchArms(ts, s2), Punct(RBrace))
  }

  /** The arms end at the closing brace or at the end of the tokens, whatever they hold. */
  function MatchArms(ts: seq<Token>, s: State): (t: State)
    requires s.pos <= |ts|
    ensures Reaches(ts, s, t) && (AtEnd(ts, t) || Check(ts, t, Punct(RBrace)))
    decreases |ts| - s.pos, 1
  {
    if AtEnd(ts, s) || Check(ts, s, Punct(RBrace)) then s
    else
      var r := MatchArm(ts, s);
      if r.Threw? then MatchArms(ts, SkipPast(ts, r.s, true))
      else if Separates(ts, r.s) then MatchArms(ts, Advance(r.s))
      else if Check(ts, r.s, Punct(RBrace)) then r.s
      else if Check(ts, r.s, Name) then MatchArms(ts, Error(r.s))
      else MatchArms(ts, SkipPast(ts, Error(r.s), true))
  }

  function MatchArm(ts: seq<Token>, s: State): (r: Out)
    requires s.pos <= |ts|
    ensures Moves(ts, s, r)
    decreases |ts| - s.pos, 0
  {
    var s1 :- Consume(ts, s, Name);
    var s2 :- ArmBinding(ts, s1);
    var s3 :- ArmGuard(ts, s2);
    var s4 :- Consume(ts, s3, Punct(FatArrow));
    Expression(ts, s4)
  }

  /** A missing parenthesis is forgiven before the guard and before the arrow. */
  function ArmBinding(ts: seq<Token>, s: State): (r: Out)
    requires s.pos <= |ts|
    ensures Stays(ts, s, r)
    decreases |ts| - s.pos
  {
    if !Check(ts, s, Punct(LParen)) then Done(s, false)
    else
      var s1 :- if Check(ts, Advance(s), Punct(RParen)) then Done(Advance(s), false) else MatchPattern(ts, Advance(s));
      if Check(ts, s1, Punct(RParen)) then Done(Advance(s1), false)
      else if Check(ts, s1, Punct(FatArrow)) || Check(ts, s1, Keyword(KwIf)) then Done(Error(s1), false)
      else Threw(Error(s1))
  }

  function ArmGuard(ts: seq<Token>, s: State): (r: Out)
    requires s.pos <= |ts|
    ensures Stays(ts, s, r)
    decreases |ts| - s.pos, 0
  {
    if !Check(ts, s, Keyword(KwIf)) then Done(s, false)
    else if Check(ts, Advance(s), Punct(FatArrow)) then Done(Error(Advance(s)), false)
    else Expression(ts, Advance(s))
  }

  /** `parse_match_pattern`: a record, a variant, a tuple or a name. */
  function MatchPattern(ts: seq<Token>, s: State): (r: Out)
    requires s.pos <= |ts|
    ensures Moves(ts, s, r)
    decreases |ts| - s.pos
  {
    if Check(ts, s, Punct(LBrace)) then Consume(ts, RecordPattern(ts, Advance(s)), Punct(RBrace))
    else
      var s1 :- Consume(ts, s, Name);
      if Check(ts, s1, Punct(LParen)) then
        var s2 :- if Check(ts, Advance(s1), Punct(RParen)) then Done(Advance(s1), false)
                  else MatchPattern(ts, Advance(s1));
        Consume(ts, s2, Punct(RParen))
      else if Check(ts, s1, Punct(Comma)) then Done(TuplePattern(ts, Advance(s1)), false)
      else Done(s1, false)
  }

  /** The loop over the fields of a record pattern ends at the closing brace or at the end. */
  function RecordPattern(ts: seq<Token>, s: State): (t: State)
    requires s.pos <= |ts|
    ensures Reaches(ts, s, t) && (AtEnd(ts, t) || Check(ts, t, Punct(RBrace)))
    decreases |ts| - s.pos
  {
    if AtEnd(ts, s) || Check(ts, s, Punct(RBrace)) then s else RecordPattern(ts, PatternField(ts, s))
  }

  /** One field with what separates it from the next; where no name begins a field, and where
      no separator follows one, everything up to a separator or a closing brace is skipped. */
  function PatternField(ts: seq<Token>, s: State): (t: State)
    requires s.pos < |ts| && !Check(ts, s, Punct(RBrace))
    ensures Reaches(ts, s, t) && s.pos < t.pos
  {
    if !Check(ts, s, Name) then SkipPast(ts, Error(s), true)
    else
      var s1 := FieldBinding(ts, Advance(s));
      if Separates(ts, s1) then Advance(s1)
      else if Check(ts, s1, Punct(RBrace)) then s1
      else SkipPast(ts, Error(s1), true)
  }

  function FieldBinding(ts: seq<Token>, s: State): (t: State)
    requires s.pos <= |ts|
    ensures Reaches(ts, s, t)
  {
    if !Check(ts, s, Punct(Colon)) then s
    else if Check(ts, Advance(s), Name) then Advance(Advance(s))
    else Skip(ts, Error(Advance(s)), true)
  }

  /** The loop over the names of a tuple after the first. */
  function TuplePattern(ts: seq<Token>, s: State): (t: State)
    requires s.pos <= |ts|
    ensures Reaches(ts, s, t)
    decreases |ts| - s.pos
  {
    var s1 := if Check(ts, s, Name) then Advance(s) else ToTupleEnd(ts, Error(s));
    if Check(ts, s1, Punct(Comma)) then TuplePattern(ts, Advance(s1)) else s1
  }

  function ToTupleEnd(ts: seq<Token>, s: State): (t: State)
    requires s.pos <= |ts|
    ensures Reaches(ts, s, t) && t.errors == s.errors
    decreases |ts| - s.pos
  {
    if AtEnd(ts, s) || Check(ts, s, Punct(Comma)) || Check(ts, s, Punct(RParen)) then s else ToTupleEnd(ts, Advance(s))
  }

  // ---------- blocks

  /** `block`, after its opening brace. */
  function Block(ts: seq<Token>, s: State): (r: Out)
    requires s.pos <= |ts|
    ensures Moves(ts, s, r) && (r.Done? ==> !r.flag)
    decreases |ts| - s.pos, 23
  {
    Consume(ts, BlockBody(ts, s), Punct(RBrace))
  }

  /** `parse_block_body`: an item that throws is followed by panic mode.  It ends at a closing
      brace or at the end, unless an error was reported. */
  function BlockBody(ts: seq<Token>, s: State): (t: State)
    requires s.pos <= |ts|
    ensures Reaches(ts, s, t)
    ensures AtEnd(ts, t) || Check(ts, t, Punct(RBrace)) || s.errors < t.errors
    decreases |ts| - s.pos, 22
  {
    if AtEnd(ts, s) || Check(ts, s, Punct(RBrace)) then s
    else
      var r := BlockItem(ts, s);
      if r.Threw? then BlockBody(ts, Synchronize(ts, r.s))
      else if r.flag then r.s
      else BlockBody(ts, r.s)
  }

  /** One round of the loop; the last item leaves it. */
  function BlockItem(ts: seq<Token>, s: State): (r: Out)
    requires s.pos <= |ts|
    ensures Moves(ts, s, r)
    ensures r.Done? && r.flag ==> Check(ts, r.s, Punct(RBrace)) || s.errors < r.s.errors
    decreases |ts| - s.pos, 21
  {
    var structural := StructuralAttributes(ts, s, false, false, false);
    var s1 :- structural;
    var functional := FunctionAttributes(ts, s1, false, false);
    var s2 :- functional;
    if Check(ts, s2, Keyword(KwType)) then TypeDeclaration(ts, Advance(s2))
    else if Check(ts, s2, Keyword(KwRecord)) then RecordDeclaration(ts, Advance(s2))
    else if Check(ts, s2, Keyword(KwEnum)) then EnumDeclaration(ts, Advance(s2))
    else
      var s3 := if structural.flag then Error(s2) else s2;
      if Check(ts, s3, Keyword(KwFn)) then FunctionDeclaration(ts, Advance(s3))
      else
        PlainItem(ts, if functional.flag then Error(s3) else s3)
  }

  /** What takes no attributes. */
  function PlainItem(ts: seq<Token>, s: State): (r: Out)
    requires s.pos <= |ts|
    ensures Moves(ts, s, r)
    ensures r.Done? && r.flag ==> Check(ts, r.s, Punct(RBrace)) || s.errors < r.s.errors
    decreases |ts| - s.pos, 20
  {
    if Check(ts, s, Keyword(KwVar)) then VarDeclaration(ts, Advance(s))
    else if Check(ts, s, Keyword(KwLet)) then LetDeclaration(ts, Advance(s))
    else if Check(ts, s, Keyword(KwIf)) then IfItem(ts, Advance(s))
    else if Check(ts, s, Punct(LBrace)) then BlockInBlock(ts, s)
    else if BeginsStatement(ts, s) then Statement(ts, s)
    else ExpressionItem(ts, s)
  }

  /** What a block reads as a statement and not as an expression. */
  predicate BeginsStatement(ts: seq<Token>, s: State) {
    || Check(ts, s, Keyword(KwWhile)) || Check(ts, s, Keyword(KwFor)) || Check(ts, s, Keyword(KwReflect))
    || Check(ts, s, Keyword(KwLoop)) || Check(ts, s, Punct(At)) || Check(ts, s, Keyword(KwBreak))
    || Check(ts, s, Keyword(KwContinue)) || Check(ts, s, Keyword(KwReturn))
  }

  /** After `if`: with braces an expression, which may end the block, without a statement. */
  function IfItem(ts: seq<Token>, s: State): (r: Out)
    requires s.pos <= |ts|
    ensures Moves(ts, s, r) && (r.Done? && r.flag ==> Check(ts, r.s, Punct(RBrace)))
    decreases |ts| - s.pos, 1
  {
    var s1 :- Condition(ts, s);
    if Check(ts, s1, Punct(LBrace)) then
      var s2 :- BlockExpression(ts, s1);
      var s3 :- ElseExpression(ts, s2);
      if Check(ts, s3, Punct(Semicolon)) then Done(Advance(s3), false)
      else Done(s3, Check(ts, s3, Punct(RBrace)))
    else
      var s2 :- Statement(ts, s1);
      ElseStatement(ts, s2)
  }

  function BlockInBlock(ts: seq<Token>, s: State): (r: Out)
    requires s.pos <= |ts|
    ensures Moves(ts, s, r) && (r.Done? && r.flag ==> Check(ts, r.s, Punct(RBrace)))
    decreases |ts| - s.pos, 1
  {
    var s1 :- BlockExpression(ts, s);
    Done(s1, Check(ts, s1, Punct(RBrace)))
  }

  function ExpressionItem(ts: seq<Token>, s: State): (r: Out)
    requires s.pos <= |ts|
    ensures Moves(ts, s, r)
    ensures r.Done? && r.flag ==> Check(ts, r.s, Punct(RBrace)) || s.errors < r.s.errors
    decreases |ts| - s.pos, 18
  {
    var s1 :- Expression(ts, s);
    if Check(ts, s1, Punct(Semicolon)) then Done(Advance(s1), false)
    else if Check(ts, s1, Punct(RBrace)) then Done(s1, true)
    else Done(Error(s1), true)
  }

  // ---------- statements

  function Statement(ts: seq<Token>, s: State): (r: Out)
    requires s.pos <= |ts|
    ensures Moves(ts, s, r) && (r.Done? ==> !r.flag)
    decreases |ts| - s.pos, 19
  {
    if Check(ts, s, Keyword(KwIf)) then
      var s1 :- Condition(ts, Advance(s));
      var s2 :- Statement(ts, s1);
      ElseStatement(ts, s2)
    else if Check(ts, s, Keyword(KwWhile)) then
      var s1 :- Condition(ts, Advance(s));
      Statement(ts, s1)
    else if Check(ts, s, Keyword(KwFor)) then ForStatement(ts, Advance(s))
    else if Check(ts, s, Punct(At)) || Check(ts, s, Keyword(KwLoop)) then LoopStatement(ts, s)
    else SimpleStatement(ts, s)
  }

  /** Those that hold no statement of their own outside a block. */
  function SimpleStatement(ts: seq<Token>, s: State): (r: Out)
    requires s.pos <= |ts|
    ensures Moves(ts, s, r) && (r.Done? ==> !r.flag)
    decreases |ts| - s.pos, 18
  {
    if Check(ts, s, Keyword(KwReflect)) || Check(ts, s, Keyword(KwDistributed)) ||
        Check(ts, s, Keyword(KwInfinite)) then
      BracedBlock(ts, Advance(s))
    else if Check(ts, s, Keyword(KwTrain)) then
      var s1 :- Condition(ts, Advance(s));
      BracedBlock(ts, s1)
    else if Check(ts, s, Keyword(KwBreak)) || Check(ts, s, Keyword(KwContinue)) then
      Consume(ts, Advance(s), Punct(Semicolon))
    else if Check(ts, s, Keyword(KwReturn)) then
      var s1 :- if Check(ts, Advance(s), Punct(Semicolon)) then Done(Advance(s), false) else Expression(ts, Advance(s));
      Consume(ts, s1, Punct(Semicolon))
    else if Check(ts, s, Punct(LBrace)) then Block(ts, Advance(s))
    else
      var s1 :- Expression(ts, s);
      Consume(ts, s1, Punct(Semicolon))
  }

  function ElseStatement(ts: seq<Token>, s: State): (r: Out)
    requires s.pos <= |ts|
    ensures Stays(ts, s, r) && (r.Done? ==> !r.flag)
    decreases |ts| - s.pos, 0
  {
    if Check(ts, s, Keyword(KwElse)) then Statement(ts, Advance(s)) else Done(s, false)
  }

  /** After `for`. */
  function ForStatement(ts: seq<Token>, s: State): (r: Out)
    requires s.pos <= |ts|
    ensures Moves(ts, s, r) && (r.Done? ==> !r.flag)
    decreases |ts| - s.pos, 0
  {
    var s1 :- Consume(ts, s, Name);
    var s2 :- Consume(ts, s1, Keyword(KwIn));
    var s3 :- Expression(ts, s2);
    Statement(ts, s3)
  }

  function BracedBlock(ts: seq<Token>, s: State): (r: Out)
    requires s.pos <= |ts|
    ensures Moves(ts, s, r) && (r.Done? ==> !r.flag)
    decreases |ts| - s.pos, 0
  {
    var s1 :- Consume(ts, s, Punct(LBrace));
    Block(ts, s1)
  }

  function LoopStatement(ts: seq<Token>, s: State): (r: Out)
    requires s.pos <= |ts|
    ensures Moves(ts, s, r) && (r.Done? ==> !r.flag)
    decreases |ts| - s.pos, 1
  {
    var s1 :- LoopAnnotation(ts, s);
    if Check(ts, s1, Keyword(KwFor)) then ForStatement(ts, Advance(s1))
    else
      var s2 :- Consume(ts, s1, Keyword(KwLoop));
      BracedBlock(ts, s2)
  }

  /** `parse_loop_annotation`. */
  function LoopAnnotation(ts: seq<Token>, s: State): (r: Out)
    requires s.pos <= |ts|
    ensures Stays(ts, s, r)
    decreases |ts| - s.pos, 0
  {
    if !Check(ts, s, Punct(At)) then Done(s, false)
    else
      var s1 :- Consume(ts, Advance(s), Name);
      var s2 :- Consume(ts, if NameAfter(ts, s) == Some("bounded") then s1 else Error(s1), Punct(LParen));
      var s3 :- LoopBound(ts, s2);
      Consume(ts, s3, Punct(RParen))
  }

  function LoopBound(ts: seq<Token>, s: State): (r: Out)
    requires s.pos <= |ts|
    ensures Stays(ts, s, r)
    decreases |ts| - s.pos, 1
  {
    var s1 := Advance(s);
    if Check(ts, s, Keyword(KwInfinite)) then Done(s1, false)
    else if Check(ts, s, Keyword(KwLoop)) then Condition(ts, s1)
    else if Check(ts, s, Name) then
      if ts[s.pos].text == "infinite" then Done(s1, false)
      else if ts[s.pos].text == "loop" then Condition(ts, s1)
      else Done(Error(s1), false)
    else if Check(ts, s, Whole) then Done(if NumberAt(ts, s).Some? then s1 else Error(s1), false)
    else Done(Error(s), false)
  }

  // ---------- declarations

  function TypeAnnotation(ts: seq<Token>, s: State): (r: Out)
    requires s.pos <= |ts|
    ensures Stays(ts, s, r)
    decreases |ts| - s.pos, 0
  {
    if Check(ts, s, Punct(Colon)) then TypeExpr(ts, Advance(s)) else Done(s, false)
  }

  /** After `var`. */
  function VarDeclaration(ts: seq<Token>, s: State): (r: Out)
    requires s.pos <= |ts|
    ensures Moves(ts, s, r) && (r.Done? ==> !r.flag)
    decreases |ts| - s.pos, 0
  {
    var s1 :- Consume(ts, s, Name);
    var s2 :- TypeAnnotation(ts, s1);
    var s3 :- if Check(ts, s2, Punct(Equal)) then Expression(ts, Advance(s2)) else Done(s2, false);
    Consume(ts, s3, Punct(Semicolon))
  }

  /** After `let`. */
  function LetDeclaration(ts: seq<Token>, s: State): (r: Out)
    requires s.pos <= |ts|
    ensures Moves(ts, s, r) && (r.Done? ==> !r.flag)
    decreases |ts| - s.pos, 0
  {
    var s1 :- Consume(ts, s, Name);
    var s2 :- TypeAnnotation(ts, s1);
    var s3 :- Consume(ts, s2, Punct(Equal));
    var s4 :- Expression(ts, s3);
    Consume(ts, s4, Punct(Semicolon))
  }

  /** Up to eight names in brackets, or nothing. */
  function GenericNames(ts: seq<Token>, s: State): (r: Out)
    requires s.pos <= |ts|
    ensures Stays(ts, s, r)
  {
    if !Check(ts, s, Punct(LBracket)) then Done(s, false)
    else
      var s1 :- MoreNames(ts, Advance(s), 0);
      Consume(ts, s1, Punct(RBracket))
  }

  function MoreNames(ts: seq<Token>, s: State, count: nat): (r: Out)
    requires s.pos <= |ts|
    ensures Stays(ts, s, r)
    decreases |ts| - s.pos
  {
    if count >= 8 then Done(Error(s), false)
    else
      var s1 :- Consume(ts, s, Name);
      if Check(ts, s1, Punct(Comma)) then MoreNames(ts, Advance(s1), count + 1) else Done(s1, false)
  }

  /** The parameters of a function with their types; those of `recurse` may have none. */
  function ParameterList(ts: seq<Token>, s: State, typed: bool): (r: Out)
    requires s.pos <= |ts|
    ensures Moves(ts, s, r)
    decreases |ts| - s.pos, 0
  {
    var s1 :- Consume(ts, s, Punct(LParen));
    var s2 :- if Check(ts, s1, Punct(RParen)) then Done(s1, false) else FormalParameters(ts, s1, typed, 0);
    Consume(ts, s2, Punct(RParen))
  }

  function FormalParameters(ts: seq<Token>, s: State, typed: bool, count: nat): (r: Out)
    requires s.pos <= |ts|
    ensures Stays(ts, s, r)
    decreases |ts| - s.pos, 0
  {
    var s1 :- Consume(ts, if count >= 255 then Error(s) else s, Name);
    if typed && !Check(ts, s1, Punct(Colon)) then Threw(Error(s1))
    else
      var s2 :- TypeAnnotation(ts, s1);
      if Check(ts, s2, Punct(Comma)) then FormalParameters(ts, Advance(s2), typed, count + 1) else Done(s2, false)
  }

  /** After `fn`. */
  function FunctionDeclaration(ts: seq<Token>, s: State): (r: Out)
    requires s.pos <= |ts|
    ensures Moves(ts, s, r) && (r.Done? ==> !r.flag)
    decreases |ts| - s.pos, 0
  {
    var s1 :- Consume(ts, s, Name);
    var s2 :- GenericNames(ts, s1);
    var s3 :- ParameterList(ts, s2, true);
    var s4 :- if Check(ts, s3, Punct(Arrow)) then TypeExpr(ts, Advance(s3)) else Done(s3, false);
    BracedBlock(ts, s4)
  }

  /** After `recurse`. */
  function RecurseDeclaration(ts: seq<Token>, s: State): (r: Out)
    requires s.pos <= |ts|
    ensures Moves(ts, s, r) && (r.Done? ==> !r.flag)
    decreases |ts| - s.pos, 0
  {
    var s1 :- Consume(ts, s, Name);
    var s2 :- ParameterList(ts, s1, false);
    BracedBlock(ts, s2)
  }

  /** After `type`. */
  function TypeDeclaration(ts: seq<Token>, s: State): (r: Out)
    requires s.pos <= |ts|
    ensures Moves(ts, s, r) && (r.Done? ==> !r.flag)
    decreases |ts| - s.pos, 0
  {
    var s1 :- Consume(ts, s, Name);
    var s2 :- GenericNames(ts, s1);
    var s3 :- Consume(ts, s2, Punct(Equal));
    var s4 :- TypeExpr(ts, s3);
    Consume(ts, s4, Punct(Semicolon))
  }

  /** After `record`. */
  function RecordDeclaration(ts: seq<Token>, s: State): (r: Out)
    requires s.pos <= |ts|
    ensures Moves(ts, s, r) && (r.Done? ==> !r.flag)
    decreases |ts| - s.pos, 0
  {
    var s1 :- Consume(ts, s, Name);
    var s2 :- Consume(ts, s1, Punct(LBrace));
    var s3 :- Members(ts, s2, true);
    var s4 :- Consume(ts, s3, Punct(RBrace));
    Consume(ts, s4, Punct(Semicolon))
  }

  /** After `enum`. */
  function EnumDeclaration(ts: seq<Token>, s: State): (r: Out)
    requires s.pos <= |ts|
    ensures Moves(ts, s, r) && (r.Done? ==> !r.flag)
    decreases |ts| - s.pos, 0
  {
    var s1 :- Consume(ts, s, Name);
    var s2 :- Consume(ts, s1, Punct(LBrace));
    var s3 :- Members(ts, s2, false);
    var s4 :- Consume(ts, s3, Punct(RBrace));
    Consume(ts, s4, Punct(Semicolon))
  }

  /** The loop over the fields of a record or the variants of an enum: where no name begins
      one, the bad token and what follows it up to a semicolon are discarded; an exception
      leaves the loop. */
  function Members(ts: seq<Token>, s: State, fields: bool): (r: Out)
    requires s.pos <= |ts|
    ensures Stays(ts, s, r) && (r.Done? ==> AtEnd(ts, r.s) || Check(ts, r.s, Punct(RBrace)))
    decreases |ts| - s.pos, 1
  {
    if AtEnd(ts, s) || Check(ts, s, Punct(RBrace)) then Done(s, false)
    else if !Check(ts, s, Name) then Members(ts, SkipPast(ts, Advance(Error(s)), false), fields)
    else
      var s1 :- if fields then Field(ts, s) else Variant(ts, s);
      Members(ts, s1, fields)
  }

  function Field(ts: seq<Token>, s: State): (r: Out)
    requires s.pos <= |ts|
    ensures Moves(ts, s, r)
    decreases |ts| - s.pos, 0
  {
    var s1 :- Consume(ts, s, Name);
    var s2 :- Consume(ts, s1, Punct(Colon));
    var s3 :- TypeExpr(ts, s2);
    Consume(ts, s3, Punct(Semicolon))
  }

  function Variant(ts: seq<Token>, s: State): (r: Out)
    requires s.pos <= |ts|
    ensures Moves(ts, s, r)
    decreases |ts| - s.pos, 0
  {
    var s1 :- Consume(ts, s, Name);
    var s2 :- Payload(ts, s1);
    Consume(ts, s2, Punct(Semicolon))
  }

  function Payload(ts: seq<Token>, s: State): (r: Out)
    requires s.pos <= |ts|
    ensures Stays(ts, s, r)
    decreases |ts| - s.pos, 0
  {
    if !Check(ts, s, Punct(LParen)) then Done(s, false)
    else
      var s1 :- TypeExpr(ts, Advance(s));
      Consume(ts, s1, Punct(RParen))
  }

  // ---------- the program

  /** The body of the `try` in `declaration`. */
  function DeclarationBody(ts: seq<Token>, s: State): (r: Out)
    requires s.pos <= |ts|
    ensures Moves(ts, s, r)
  {
    var structural := StructuralAttributes(ts, s, false, false, false);
    var s1 :- structural;
    var functional := FunctionAttributes(ts, s1, false, false);
    var s2 :- functional;
    if Check(ts, s2, Keyword(KwType)) then TypeDeclaration(ts, Advance(s2))
    else if Check(ts, s2, Keyword(KwRecord)) then RecordDeclaration(ts, Advance(s2))
    else if Check(ts, s2, Keyword(KwEnum)) then EnumDeclaration(ts, Advance(s2))
    else
      var s3 := if structural.flag then Error(s2) else s2;
      if Check(ts, s3, Keyword(KwFn)) then FunctionDeclaration(ts, Advance(s3))
      else if Check(ts, s3, Keyword(KwRecurse)) then RecurseDeclaration(ts, Advance(s3))
      else PlainDeclaration(ts, if functional.flag then Error(s3) else s3)
  }

  /** What takes no attributes. */
  function PlainDeclaration(ts: seq<Token>, s: State): (r: Out)
    requires s.pos <= |ts|
    ensures Moves(ts, s, r)
  {
    if Check(ts, s, Keyword(KwVar)) then VarDeclaration(ts, Advance(s))
    else if Check(ts, s, Keyword(KwLet)) then LetDeclaration(ts, Advance(s))
    else Statement(ts, s)
  }

  /** `declaration`: it never throws, and consumes a token even where it reads nothing. */
  function Declaration(ts: seq<Token>, s: State): (t: State)
    requires s.pos <= |ts|
    ensures Reaches(ts, s, t) && (s.pos < |ts| ==> s.pos < t.pos)
  {
    var r := DeclarationBody(ts, s);
    if r.Threw? then Synchronize(ts, r.s) else r.s
  }

  /** `parse`: declarations until the end; returns how many, and the errors. */
  function Program(ts: seq<Token>, s: State): (r: (nat, State))
    requires s.pos <= |ts|
    ensures r.0 <= |ts| - s.pos && r.1.pos == |ts| && s.errors <= r.1.errors
    decreases |ts| - s.pos
  {
    if AtEnd(ts, s) then (0, s)
    else
      var (n, t) := Program(ts, Declaration(ts, s));
      (n + 1, t)
  }
}
