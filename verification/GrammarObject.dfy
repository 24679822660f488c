/** The parser as an object: a position in the tokens and a count of errors, moved along by
    one method per rule of the grammar.  Exceptions are results that the callers pass on,
    except in the three places that catch them. */
module GrammarObject {
  import opened Wrappers
  import opened ExprParser
  import opened Grammar
  import G = Grammar

  /** A method went through, or raised an exception. */
  datatype Flow = Went | Raised {
    predicate IsFailure() {
      Raised?
    }

    function PropagateFailure(): Flow
      requires IsFailure()
    {
      this
    }
  }

  lemma PostfixEnds(ts: seq<Token>, s: State, target: bool)
    requires s.pos <= |ts|
    requires !Check(ts, s, Punct(Dot)) && !Check(ts, s, Punct(LParen)) && !Check(ts, s, Punct(LBracket))
    ensures G.Postfix(ts, s, target) == Done(s, target)
  {
  }

  /** No simple statement begins with this token except one that is an expression. */
  predicate BeginsPlain(t: Token) {
    && t != Mark(LBrace)
    && (t.Word? ==>
          && !t.word.KwReflect? && !t.word.KwDistributed? && !t.word.KwInfinite? && !t.word.KwTrain?
          && !t.word.KwBreak? && !t.word.KwContinue? && !t.word.KwReturn?)
  }

  class Parser {
    const tokens: seq<Token>
    var pos: nat
    var errors: nat

    function Here(): State
      reads this
    {
      State(pos, errors)
    }

    ghost predicate Valid()
      reads this
    {
      pos <= |tokens|
    }

    /** A method ended as the function says. */
    ghost predicate Ends(f: Flow, r: Out)
      reads this
    {
      Here() == r.s && (f.Raised? <==> r.Threw?)
    }

    ghost predicate EndsWith(f: Flow, flag: bool, r: Out)
      reads this
    {
      Ends(f, r) && (r.Done? ==> flag == r.flag)
    }

    constructor (tokens: seq<Token>)
      ensures Valid() && this.tokens == tokens && Here() == State(0, 0)
    {
      this.tokens := tokens;
      pos, errors := 0, 0;
    }

    // ---------- tokens and recovery

    /** `check`. */
    predicate Sees(c: Class)
      reads this
    {
      Check(tokens, Here(), c)
    }

    /** `match` with one type. */
    method Match(c: Class) returns (matched: bool)
      requires Valid()
      modifies this
      ensures Valid() && matched == old(Sees(c))
      ensures Here() == (if matched then Advance(old(Here())) else old(Here()))
    {
      matched := Sees(c);
      if matched {
        pos := pos + 1;
      }
    }

    method Consume(c: Class) returns (f: Flow)
      requires Valid()
      modifies this
      ensures Valid() && Ends(f, G.Consume(tokens, old(Here()), c))
    {
      var matched := Match(c);
      if matched {
        return Went;
      }
      errors := errors + 1;
      return Raised;
    }

    /** `synchronize`. */
    method PanicMode()
      requires Valid()
      modifies this
      ensures Valid() && Here() == Synchronize(tokens, old(Here()))
    {
      if pos == |tokens| {
        return;
      }
      pos := pos + 1;
      while pos < |tokens| && tokens[pos - 1] != Mark(Semicolon) && !Boundary(tokens[pos])
        invariant 0 < pos <= |tokens|
        invariant Synchronize(tokens, old(Here())) == Scan(tokens, Here())
        decreases |tokens| - pos
      {
        pos := pos + 1;
      }
    }

    method SkipTo(commas: bool)
      requires Valid()
      modifies this
      ensures Valid() && Here() == Skip(tokens, old(Here()), commas)
    {
      while pos < |tokens| && !Sees(Punct(RBrace)) && !Sees(Punct(Semicolon)) && !(commas && Sees(Punct(Comma)))
        invariant Valid() && Skip(tokens, old(Here()), commas) == Skip(tokens, Here(), commas)
        decreases |tokens| - pos
      {
        pos := pos + 1;
      }
    }

    method SkipBeyond(commas: bool)
      requires Valid()
      modifies this
      ensures Valid() && Here() == SkipPast(tokens, old(Here()), commas)
    {
      SkipTo(commas);
      if pos < |tokens| && !Sees(Punct(RBrace)) {
        pos := pos + 1;
      }
    }

    // ---------- attributes

    method ParseStructuralAttributes() returns (f: Flow, seen: bool)
      requires Valid()
      modifies this
      ensures Valid() && EndsWith(f, seen, StructuralAttributes(tokens, old(Here()), false, false, false))
    {
      hide StructuralAttribute;
      seen := false;
      var schema, path := false, false;
      while StructuralAhead(tokens, Here())
        invariant Valid()
        invariant StructuralAttributes(tokens, old(Here()), false, false, false)
                  == StructuralAttributes(tokens, Here(), seen, schema, path)
        decreases |tokens| - pos
      {
        var isPath := NameAfter(tokens, Here()) == Some("module");
        var valid :- ParseStructuralAttribute(schema, path);
        seen, schema, path := true, schema || valid, path || isPath;
      }
      f := Went;
    }

    method ParseStructuralAttribute(schema: bool, path: bool) returns (f: Flow, valid: bool)
      requires Valid() && StructuralAhead(tokens, Here())
      modifies this
      ensures Valid() && EndsWith(f, valid, StructuralAttribute(tokens, old(Here()), schema, path))
    {
      hide VersionValue, PathValue;
      valid := false;
      var isSchema := NameAfter(tokens, Here()) == Some("schema");
      pos := pos + 2;
      :- Consume(Punct(LParen));
      if isSchema {
        valid :- ParseVersion(schema);
      } else {
        :- ParsePath(path);
      }
      f := Consume(Punct(RParen));
    }

    method ParseVersion(given: bool) returns (f: Flow, valid: bool)
      requires Valid()
      modifies this
      ensures Valid() && EndsWith(f, valid, VersionValue(tokens, old(Here()), given))
    {
      hide Stoll;
      valid := false;
      if given {
        errors := errors + 1;
      }
      var version := NumberAt(tokens, Here());
      :- Consume(Whole);
      valid := version.Some? && version.value > 0;
      if !valid {
        errors := errors + 1;
      }
      f := Went;
    }

    method ParsePath(given: bool) returns (f: Flow)
      requires Valid()
      modifies this
      ensures Valid() && Ends(f, PathValue(tokens, old(Here()), given))
    {
      hide PathSegments;
      if given {
        errors := errors + 1;
      }
      :- Consume(Name);
      f := ParsePathSegments();
    }

    method ParsePathSegments() returns (f: Flow)
      requires Valid()
      modifies this
      ensures Valid() && Ends(f, PathSegments(tokens, old(Here())))
    {
      while Sees(Punct(Dot))
        invariant Valid() && PathSegments(tokens, old(Here())) == PathSegments(tokens, Here())
        decreases |tokens| - pos
      {
        pos := pos + 1;
        :- Consume(Name);
      }
      f := Went;
    }

    method ParseFunctionAttributes() returns (f: Flow, seen: bool)
      requires Valid()
      modifies this
      ensures Valid() && EndsWith(f, seen, FunctionAttributes(tokens, old(Here()), false, false))
    {
      hide FunctionAttribute;
      seen := false;
      var tier := false;
      while FunctionalAhead(tokens, Here())
        invariant Valid()
        invariant FunctionAttributes(tokens, old(Here()), false, false) ==
                  FunctionAttributes(tokens, Here(), seen, tier)
        decreases |tokens| - pos
      {
        var valid :- ParseFunctionAttribute(tier);
        seen, tier := true, tier || valid;
      }
      f := Went;
    }

    method ParseFunctionAttribute(tier: bool) returns (f: Flow, valid: bool)
      requires Valid() && FunctionalAhead(tokens, Here())
      modifies this
      ensures Valid() && EndsWith(f, valid, FunctionAttribute(tokens, old(Here()), tier))
    {
      hide Stoll;
      valid := false;
      pos := pos + 2;
      :- Consume(Punct(LParen));
      if tier {
        errors := errors + 1;
      }
      var value := NumberAt(tokens, Here());
      :- Consume(Whole);
      valid := value.Some? && 1 <= value.value <= 5;
      if !valid {
        errors := errors + 1;
      }
      f := Consume(Punct(RParen));
    }

    // ---------- types

    method ParseType() returns (f: Flow)
      requires Valid()
      modifies this
      ensures Valid() && Ends(f, TypeExpr(tokens, old(Here())))
      decreases |tokens| - pos, 0
    {
      hide GenericType;
      if !TypeStarts(tokens, Here()) {
        errors := errors + 1;
        return Went;
      }
      var name := tokens[pos];
      pos := pos + 1;
      if Sees(Punct(Less)) {
        errors := errors + 1;
        return Went;
      }
      if Sees(Punct(LBracket)) {
        f := ParseGenericType(name == Identifier("Result"));
        return;
      }
      return Went;
    }

    method ParseGenericType(result: bool) returns (f: Flow)
      requires Valid()
      modifies this
      ensures Valid() && Ends(f, GenericType(tokens, old(Here()), result))
      decreases |tokens| - pos, 0
    {
      hide Parameter, MoreParameters;
      :- Consume(Punct(LBracket));
      :- ParseParameter(false);
      :- ParseMoreParameters(result);
      f := Consume(Punct(RBracket));
    }

    method ParseMoreParameters(result: bool) returns (f: Flow)
      requires Valid()
      modifies this
      ensures Valid() && Ends(f, MoreParameters(tokens, old(Here()), result, 1))
      decreases |tokens| - pos, 0
    {
      hide Parameter, ToBracket;
      var count := 1;
      while Sees(Punct(Comma))
        invariant Valid() && pos >= old(pos)
        invariant MoreParameters(tokens, old(Here()), result, 1) == MoreParameters(tokens, Here(), result, count)
        decreases |tokens| - pos
      {
        pos := pos + 1;
        if Sees(Punct(RBracket)) {
          errors := errors + 1;
          return Went;
        }
        if count >= 8 {
          errors := errors + 1;
          SkipToBracket();
          return Went;
        }
        :- ParseParameter(result && count == 1);
        count := count + 1;
      }
      f := Went;
    }

    method SkipToBracket()
      requires Valid()
      modifies this
      ensures Valid() && Here() == ToBracket(tokens, old(Here()))
    {
      while pos < |tokens| && !Sees(Punct(RBracket))
        invariant Valid() && ToBracket(tokens, old(Here())) == ToBracket(tokens, Here())
        decreases |tokens| - pos
      {
        pos := pos + 1;
      }
    }

    method ParseParameter(asType: bool) returns (f: Flow)
      requires Valid()
      modifies this
      ensures Valid() && Ends(f, Parameter(tokens, old(Here()), asType))
      decreases |tokens| - pos, 18
    {
      hide TypeExpr, G.Expression;
      if asType || TypeStarts(tokens, Here()) {
        f := ParseType();
      } else {
        var target;
        f, target := ParseExpression();
      }
    }

    // ---------- expressions

    method ParseExpression() returns (f: Flow, target: bool)
      requires Valid()
      modifies this
      ensures Valid() && EndsWith(f, target, G.Expression(tokens, old(Here())))
      decreases |tokens| - pos, 17
    {
      hide G.Level;
      target :- ParseLevel(0);
      if Sees(Punct(Equal)) {
        pos := pos + 1;
        var value :- ParseExpression();
        if !target {
          errors := errors + 1;
        }
        target := false;
      }
      f := Went;
    }

    /** `logical_or` down to `exponent`, and `unary`. */
    method ParseLevel(n: nat) returns (f: Flow, target: bool)
      requires Valid() && n <= UNARY
      modifies this
      ensures Valid() && EndsWith(f, target, G.Level(n, tokens, old(Here())))
      decreases |tokens| - pos, UNARY - n + 3
    {
      hide G.UnaryLevel, Operators;
      if n == UNARY {
        f, target := ParseUnary();
        return;
      }
      target :- ParseLevel(n + 1);
      if n == RANGE || n == EXPONENT {
        f, target := ParseEnd(n, target);
      } else {
        f, target := ParseOperators(n, target);
      }
    }

    /** `range` and `exponent`: at most one operator. */
    method ParseEnd(n: nat, start: bool) returns (f: Flow, target: bool)
      requires Valid() && (n == RANGE || n == EXPONENT)
      modifies this
      ensures Valid() && EndsWith(f, target, Operators(n, tokens, old(Here()), start))
      decreases |tokens| - pos, 1
    {
      hide G.Level;
      target := start;
      if Operator(tokens, Here(), n) {
        pos := pos + 1;
        var right :- ParseLevel(if n == EXPONENT then n else n + 1);
        target := false;
      }
      f := Went;
    }

    /** The other rungs: operators to the left. */
    method ParseOperators(n: nat, start: bool) returns (f: Flow, target: bool)
      requires Valid() && n < UNARY && n != RANGE && n != EXPONENT
      modifies this
      ensures Valid() && EndsWith(f, target, Operators(n, tokens, old(Here()), start))
      decreases |tokens| - pos, 1
    {
      hide G.Level;
      target := start;
      while Operator(tokens, Here(), n)
        invariant Valid() && pos >= old(pos)
        invariant Operators(n, tokens, old(Here()), start) == Operators(n, tokens, Here(), target)
        decreases |tokens| - pos
      {
        pos := pos + 1;
        var right :- ParseLevel(n + 1);
        target := false;
      }
      f := Went;
    }

    method ParseUnary() returns (f: Flow, target: bool)
      requires Valid()
      modifies this
      ensures Valid() && EndsWith(f, target, G.UnaryLevel(tokens, old(Here())))
      decreases |tokens| - pos, 2
    {
      hide G.Primary;
      target := false;
      if Prefix(tokens, Here()) {
        pos := pos + 1;
        var right :- ParseUnary();
        return Went, false;
      }
      f, target := ParsePrimary();
    }

    method ParsePrimary() returns (f: Flow, target: bool)
      requires Valid()
      modifies this
      ensures Valid() && EndsWith(f, target, G.Primary(tokens, old(Here())))
      decreases |tokens| - pos, 1
    {
      hide G.Expression, G.Postfix, NameExpression, TypeExpr, G.VectorLiteral, BlockExpression, MatchExpression,
          IfExpression;
      target := false;
      if pos == |tokens| {
        errors := errors + 1;
        return Raised, target;
      }
      var t := tokens[pos];
      if t.Identifier? {
        f, target := ParseName();
        return;
      } else if t == Mark(LBrace) {
        f := ParseBlockExpression();
        return;
      } else if t == Word(KwIf) {
        f := ParseIfExpression();
        return;
      } else if t.TypeName? {
        :- ParseType();
      } else {
        pos := pos + 1;
        if t == Word(KwMatch) {
          f := ParseMatchExpression();
          return;
        } else if t == Mark(LParen) {
          var inner :- ParseExpression();
          :- Consume(Punct(RParen));
        } else if t == Mark(LBracket) {
          :- ParseVectorLiteral();
        } else if t == Word(InfiniteLiteral) {
          :- Consume(Punct(LBrace));
          var seed :- ParseExpression();
          :- Consume(Punct(RBrace));
        } else if t == Word(KwInfer) {
          var inner :- ParseExpression();
        } else if t.Mark? || t.Word? {
          pos := pos - 1;
          errors := errors + 1;
          return Raised, target;
        }
      }
      f, target := ParsePostfix(false);
    }

    method ParseName() returns (f: Flow, target: bool)
      requires Valid() && pos < |tokens| && tokens[pos].Identifier?
      modifies this
      ensures Valid() && EndsWith(f, target, NameExpression(tokens, old(Here())))
      decreases |tokens| - pos, 0
    {
      hide G.Expression, G.Postfix, GenericType, G.RecordLiteral, IsEnumName;
      target := false;
      var name := tokens[pos];
      pos := pos + 1;
      if IsEnumName(name.text) {
        var payload := Match(Punct(LParen));
        if payload {
          var value :- ParseExpression();
          :- Consume(Punct(RParen));
        }
        return Went, false;
      }
      if Sees(Punct(LBracket)) && TypeLike(tokens, pos + 1) {
        :- ParseGenericType(name == Identifier("Result"));
        f, target := ParsePostfix(false);
        return;
      }
      var fields := Match(Punct(LBrace));
      if fields {
        f := ParseRecordLiteral();
        return;
      }
      f, target := ParsePostfix(true);
    }

    method ParseVectorLiteral() returns (f: Flow)
      requires Valid()
      modifies this
      ensures Valid() && Ends(f, VectorLiteral(tokens, old(Here())))
      decreases |tokens| - pos, 18
    {
      hide G.Expression;
      if !Sees(Punct(RBracket)) {
        var first :- ParseExpression();
        var repeated := Match(Punct(Semicolon));
        if repeated {
          var count :- ParseExpression();
        } else {
          ghost var from := Here();
          while Sees(Punct(Comma))
            invariant Valid() && pos > old(pos)
            invariant Elements(tokens, from) == Elements(tokens, Here())
            decreases |tokens| - pos
          {
            pos := pos + 1;
            if Sees(Punct(RBracket)) {
              break;
            }
            var element :- ParseExpression();
          }
        }
      }
      f := Consume(Punct(RBracket));
    }

    /** Calls, fields and indices, as long as there are any. */
    method ParsePostfix(start: bool) returns (f: Flow, target: bool)
      requires Valid()
      modifies this
      ensures Valid() && EndsWith(f, target, G.Postfix(tokens, old(Here()), start))
      decreases |tokens| - pos, 1
    {
      hide G.Postfix;
      target := start;
      while Sees(Punct(Dot)) || Sees(Punct(LParen)) || Sees(Punct(LBracket))
        invariant Valid() && pos >= old(pos)
        invariant G.Postfix(tokens, old(Here()), start) == G.Postfix(tokens, Here(), target)
        decreases |tokens| - pos
      {
        var t := tokens[pos];
        if t == Mark(Dot) {
          :- ParseFieldName(target);
        } else if t == Mark(LParen) {
          :- ParseCall(target);
        } else {
          :- ParseIndex(target);
        }
        target := t != Mark(LParen);
      }
      PostfixEnds(tokens, Here(), target);
      f := Went;
    }

    /** One of them was read, or it raised an exception. */
    ghost predicate Continues(f: Flow, target: bool, r: Out)
      requires Valid()
      reads this
    {
      if f.Raised? then r == Threw(Here()) else r == G.Postfix(tokens, Here(), target)
    }

    /** After a dot. */
    method ParseFieldName(ghost before: bool) returns (f: Flow)
      requires Valid() && Sees(Punct(Dot))
      modifies this
      ensures Valid() && pos > old(pos) && Continues(f, true, G.Postfix(tokens, old(Here()), before))
      decreases |tokens| - pos, 0
    {
      hide NamesField;
      pos := pos + 1;
      if pos == |tokens| || !NamesField(tokens[pos]) {
        errors := errors + 1;
        return Raised;
      }
      pos := pos + 1;
      f := Went;
    }

    /** Arguments in parentheses. */
    method ParseCall(ghost before: bool) returns (f: Flow)
      requires Valid() && Sees(Punct(LParen))
      modifies this
      ensures Valid() && pos > old(pos) && Continues(f, false, G.Postfix(tokens, old(Here()), before))
      decreases |tokens| - pos, 0
    {
      hide G.Arguments, NamesField;
      pos := pos + 1;
      if !Sees(Punct(RParen)) {
        :- ParseArguments();
      }
      :- Consume(Punct(RParen));
      f := Went;
    }

    /** An index in brackets. */
    method ParseIndex(ghost before: bool) returns (f: Flow)
      requires Valid() && Sees(Punct(LBracket))
      modifies this
      ensures Valid() && pos > old(pos) && Continues(f, true, G.Postfix(tokens, old(Here()), before))
      decreases |tokens| - pos, 0
    {
      hide G.Expression, NamesField;
      pos := pos + 1;
      var index :- ParseExpression();
      :- Consume(Punct(RBracket));
      f := Went;
    }

    method ParseArguments() returns (f: Flow)
      requires Valid()
      modifies this
      ensures Valid() && Ends(f, G.Arguments(tokens, old(Here())))
      decreases |tokens| - pos, 18
    {
      hide G.Expression;
      var first :- ParseExpression();
      while Sees(Punct(Comma))
        invariant Valid() && pos > old(pos)
        invariant G.Arguments(tokens, old(Here())) ==
                    if Sees(Punct(Comma)) then G.Arguments(tokens, Advance(Here())) else Done(Here(), false)
        decreases |tokens| - pos
      {
        pos := pos + 1;
        var next :- ParseExpression();
      }
      f := Went;
    }

    /** After the opening brace. */
    method ParseRecordLiteral() returns (f: Flow)
      requires Valid()
      modifies this
      ensures Valid() && Ends(f, G.RecordLiteral(tokens, old(Here())))
      decreases |tokens| - pos, 1
    {
      if !Sees(Punct(RBrace)) {
        :- ParseFieldValues();
      }
      f := Consume(Punct(RBrace));
    }

    method ParseFieldValues() returns (f: Flow)
      requires Valid()
      modifies this
      ensures Valid() && Ends(f, FieldValues(tokens, old(Here())))
      decreases |tokens| - pos, 0
    {
      hide G.Expression;
      var more := true;
      while more && !Sees(Punct(RBrace))
        invariant Valid() && pos >= old(pos)
        invariant FieldValues(tokens, old(Here())) == if more then FieldValues(tokens, Here()) else Done(Here(), false)
        decreases |tokens| - pos, more
      {
        :- Consume(Name);
        :- Consume(Punct(Colon));
        var value :- ParseExpression();
        more := Separates(tokens, Here());
        if more {
          pos := pos + 1;
        }
      }
      f := Went;
    }

    method ParseIfExpression() returns (f: Flow)
      requires Valid()
      modifies this
      ensures Valid() && Ends(f, IfExpression(tokens, old(Here())))
      decreases |tokens| - pos, 0
    {
      hide Condition, BlockExpression, ElseExpression;
      :- Consume(Keyword(KwIf));
      :- ParseCondition();
      :- ParseBlockExpression();
      f := ParseElseExpression();
    }

    method ParseCondition() returns (f: Flow)
      requires Valid()
      modifies this
      ensures Valid() && Ends(f, Condition(tokens, old(Here())))
      decreases |tokens| - pos, 0
    {
      hide G.Expression;
      :- Consume(Punct(LParen));
      var condition :- ParseExpression();
      f := Consume(Punct(RParen));
    }

    method ParseElseExpression() returns (f: Flow)
      requires Valid()
      modifies this
      ensures Valid() && Ends(f, ElseExpression(tokens, old(Here())))
      decreases |tokens| - pos, 0
    {
      hide IfExpression, BlockExpression;
      var otherwise := Match(Keyword(KwElse));
      if !otherwise {
        return Went;
      }
      if Sees(Keyword(KwIf)) {
        f := ParseIfExpression();
      } else {
        f := ParseBlockExpression();
      }
    }

    method ParseBlockExpression() returns (f: Flow)
      requires Valid()
      modifies this
      ensures Valid() && Ends(f, BlockExpression(tokens, old(Here())))
      decreases |tokens| - pos, 0
    {
      hide Block;
      :- Consume(Punct(LBrace));
      f := ParseBlock();
    }

    // ---------- match expressions

    /** After `match`. */
    method ParseMatchExpression() returns (f: Flow)
      requires Valid()
      modifies this
      ensures Valid() && Ends(f, MatchExpression(tokens, old(Here())))
      decreases |tokens| - pos, 1
    {
      hide Condition, MatchArms;
      :- ParseCondition();
      :- Consume(Punct(LBrace));
      ParseMatchArms();
      f := Consume(Punct(RBrace));
    }

    /** An exception in an arm is caught here: the arm is skipped. */
    method ParseMatchArms()
      requires Valid()
      modifies this
      ensures Valid() && Here() == MatchArms(tokens, old(Here()))
      decreases |tokens| - pos, 1
    {
      hide MatchArm, SkipPast;
      while pos < |tokens| && !Sees(Punct(RBrace))
        invariant Valid() && pos >= old(pos)
        invariant MatchArms(tokens, old(Here())) == MatchArms(tokens, Here())
        decreases |tokens| - pos
      {
        var arm := ParseMatchArm();
        if arm.Raised? {
          SkipBeyond(true);
        } else if Separates(tokens, Here()) {
          pos := pos + 1;
        } else if Sees(Punct(RBrace)) {
          break;
        } else {
          errors := errors + 1;
          if !Sees(Name) {
            SkipBeyond(true);
          }
        }
      }
    }

    method ParseMatchArm() returns (f: Flow)
      requires Valid()
      modifies this
      ensures Valid() && Ends(f, MatchArm(tokens, old(Here())))
      decreases |tokens| - pos, 0
    {
      hide ArmBinding, ArmGuard, G.Expression;
      :- Consume(Name);
      :- ParseArmBinding();
      :- ParseArmGuard();
      :- Consume(Punct(FatArrow));
      var body;
      f, body := ParseExpression();
    }

    method ParseArmBinding() returns (f: Flow)
      requires Valid()
      modifies this
      ensures Valid() && Ends(f, ArmBinding(tokens, old(Here())))
      decreases |tokens| - pos
    {
      hide MatchPattern;
      var bound := Match(Punct(LParen));
      if !bound {
        return Went;
      }
      if !Sees(Punct(RParen)) {
        :- ParseMatchPattern();
      }
      var closed := Match(Punct(RParen));
      if !closed {
        errors := errors + 1;
        if !Sees(Punct(FatArrow)) && !Sees(Keyword(KwIf)) {
          return Raised;
        }
      }
      f := Went;
    }

    method ParseArmGuard() returns (f: Flow)
      requires Valid()
      modifies this
      ensures Valid() && Ends(f, ArmGuard(tokens, old(Here())))
      decreases |tokens| - pos, 0
    {
      hide G.Expression;
      var guarded := Match(Keyword(KwIf));
      if guarded {
        if Sees(Punct(FatArrow)) {
          errors := errors + 1;
        } else {
          var guard :- ParseExpression();
        }
      }
      f := Went;
    }

    /** `parse_match_pattern`. */
    method ParseMatchPattern() returns (f: Flow)
      requires Valid()
      modifies this
      ensures Valid() && Ends(f, MatchPattern(tokens, old(Here())))
      decreases |tokens| - pos
    {
      hide RecordPattern, TuplePattern;
      var record := Match(Punct(LBrace));
      if record {
        ParseRecordPattern();
        f := Consume(Punct(RBrace));
        return;
      }
      :- Consume(Name);
      var nested := Match(Punct(LParen));
      if nested {
        if !Sees(Punct(RParen)) {
          :- ParseMatchPattern();
        }
        f := Consume(Punct(RParen));
        return;
      }
      var tuple := Match(Punct(Comma));
      if tuple {
        ParseTuplePattern();
      }
      f := Went;
    }

    method ParseRecordPattern()
      requires Valid()
      modifies this
      ensures Valid() && Here() == RecordPattern(tokens, old(Here()))
    {
      hide PatternField;
      var more := true;
      while more && pos < |tokens| && !Sees(Punct(RBrace))
        invariant Valid() && (!more ==> Sees(Punct(RBrace)))
        invariant RecordPattern(tokens, old(Here())) == RecordPattern(tokens, Here())
        decreases |tokens| - pos, more
      {
        more := ParsePatternField();
      }
    }

    /** One round of the loop; says whether to go on. */
    method ParsePatternField() returns (more: bool)
      requires Valid() && pos < |tokens| && !Sees(Punct(RBrace))
      modifies this
      ensures Valid() && Here() == PatternField(tokens, old(Here())) && (!more ==> Sees(Punct(RBrace)))
    {
      hide FieldBinding, SkipPast;
      more := true;
      var named := Match(Name);
      if !named {
        errors := errors + 1;
        SkipBeyond(true);
        return;
      }
      ParseFieldBinding();
      if Separates(tokens, Here()) {
        pos := pos + 1;
      } else if Sees(Punct(RBrace)) {
        more := false;
      } else {
        errors := errors + 1;
        SkipBeyond(true);
      }
    }

    method ParseFieldBinding()
      requires Valid()
      modifies this
      ensures Valid() && Here() == FieldBinding(tokens, old(Here()))
    {
      hide Skip;
      var bound := Match(Punct(Colon));
      if bound {
        var binding := Match(Name);
        if !binding {
          errors := errors + 1;
          SkipTo(true);
        }
      }
    }

    /** The names of a tuple after the first. */
    method ParseTuplePattern()
      requires Valid()
      modifies this
      ensures Valid() && Here() == TuplePattern(tokens, old(Here()))
    {
      var more := true;
      while more
        invariant Valid()
        invariant TuplePattern(tokens, old(Here())) == if more then TuplePattern(tokens, Here()) else Here()
        decreases |tokens| - pos, more
      {
        var named := Match(Name);
        if !named {
          errors := errors + 1;
          ghost var from := Here();
          while pos < |tokens| && !Sees(Punct(Comma)) && !Sees(Punct(RParen))
            invariant Valid() && from.pos <= pos && ToTupleEnd(tokens, from) == ToTupleEnd(tokens, Here())
            decreases |tokens| - pos
          {
            pos := pos + 1;
          }
        }
        more := Match(Punct(Comma));
      }
    }

    // ---------- blocks

    /** After the opening brace. */
    method ParseBlock() returns (f: Flow)
      requires Valid()
      modifies this
      ensures Valid() && Ends(f, Block(tokens, old(Here())))
      decreases |tokens| - pos, 23
    {
      hide BlockBody;
      ParseBlockBody();
      f := Consume(Punct(RBrace));
    }

    /** An exception in an item is caught here: panic mode, and on to the next item. */
    method ParseBlockBody()
      requires Valid()
      modifies this
      ensures Valid() && Here() == BlockBody(tokens, old(Here()))
      decreases |tokens| - pos, 22
    {
      hide BlockItem, Synchronize;
      while pos < |tokens| && !Sees(Punct(RBrace))
        invariant Valid() && pos >= old(pos)
        invariant BlockBody(tokens, old(Here())) == BlockBody(tokens, Here())
        decreases |tokens| - pos
      {
        var item, last := ParseBlockItem();
        if item.Raised? {
          PanicMode();
        } else if last {
          return;
        }
      }
    }

    method ParseBlockItem() returns (f: Flow, last: bool)
      requires Valid()
      modifies this
      ensures Valid() && EndsWith(f, last, BlockItem(tokens, old(Here())))
      decreases |tokens| - pos, 21
    {
      hide StructuralAttributes, FunctionAttributes, TypeDeclaration, RecordDeclaration, EnumDeclaration,
          FunctionDeclaration;
      hide PlainItem;
      last := false;
      var structural :- ParseStructuralAttributes();
      var functional :- ParseFunctionAttributes();
      var matched := Match(Keyword(KwType));
      if matched {
        f := ParseTypeDeclaration();
        return;
      }
      matched := Match(Keyword(KwRecord));
      if matched {
        f := ParseRecordDeclaration();
        return;
      }
      matched := Match(Keyword(KwEnum));
      if matched {
        f := ParseEnumDeclaration();
        return;
      }
      if structural {
        errors := errors + 1;
      }
      matched := Match(Keyword(KwFn));
      if matched {
        f := ParseFunctionDeclaration();
        return;
      }
      if functional {
        errors := errors + 1;
      }
      f, last := ParsePlainItem();
    }

    method ParsePlainItem() returns (f: Flow, last: bool)
      requires Valid()
      modifies this
      ensures Valid() && EndsWith(f, last, PlainItem(tokens, old(Here())))
      decreases |tokens| - pos, 20
    {
      hide VarDeclaration, LetDeclaration, IfItem, BlockExpression, Statement, ExpressionItem, BeginsStatement;
      last := false;
      var matched := Match(Keyword(KwVar));
      if matched {
        f := ParseVarDeclaration();
        return;
      }
      matched := Match(Keyword(KwLet));
      if matched {
        f := ParseLetDeclaration();
        return;
      }
      matched := Match(Keyword(KwIf));
      if matched {
        f, last := ParseIfItem();
      } else if Sees(Punct(LBrace)) {
        :- ParseBlockExpression();
        last := Sees(Punct(RBrace));
        f := Went;
      } else if BeginsStatement(tokens, Here()) {
        f := ParseStatement();
      } else {
        f, last := ParseExpressionItem();
      }
    }

    /** After `if`. */
    method ParseIfItem() returns (f: Flow, last: bool)
      requires Valid()
      modifies this
      ensures Valid() && EndsWith(f, last, IfItem(tokens, old(Here())))
      decreases |tokens| - pos, 1
    {
      hide Condition, BlockExpression, ElseExpression, Statement, ElseStatement;
      last := false;
      :- ParseCondition();
      if Sees(Punct(LBrace)) {
        :- ParseBlockExpression();
        :- ParseElseExpression();
        var ended := Match(Punct(Semicolon));
        last := !ended && Sees(Punct(RBrace));
        f := Went;
      } else {
        :- ParseStatement();
        f := ParseElseStatement();
      }
    }

    method ParseExpressionItem() returns (f: Flow, last: bool)
      requires Valid()
      modifies this
      ensures Valid() && EndsWith(f, last, ExpressionItem(tokens, old(Here())))
      decreases |tokens| - pos, 18
    {
      hide G.Expression;
      last := false;
      var target :- ParseExpression();
      var ended := Match(Punct(Semicolon));
      if !ended {
        last := true;
        if !Sees(Punct(RBrace)) {
          errors := errors + 1;
        }
      }
      f := Went;
    }

    // ---------- statements

    method ParseStatement() returns (f: Flow)
      requires Valid()
      modifies this
      ensures Valid() && Ends(f, Statement(tokens, old(Here())))
      decreases |tokens| - pos, 19
    {
      hide Condition, ElseStatement, ForStatement, LoopStatement, SimpleStatement;
      if Sees(Punct(At)) || Sees(Keyword(KwLoop)) {
        f := ParseLoopStatement();
        return;
      }
      var conditional := Match(Keyword(KwIf));
      if conditional {
        :- ParseCondition();
        :- ParseStatement();
        f := ParseElseStatement();
        return;
      }
      var repeated := Match(Keyword(KwWhile));
      if repeated {
        :- ParseCondition();
        f := ParseStatement();
        return;
      }
      var counted := Match(Keyword(KwFor));
      if counted {
        f := ParseForStatement();
        return;
      }
      f := ParseSimpleStatement();
    }

    method ParseSimpleStatement() returns (f: Flow)
      requires Valid()
      modifies this
      ensures Valid() && Ends(f, SimpleStatement(tokens, old(Here())))
      decreases |tokens| - pos, 18
    {
      hide Condition, BracedBlock, Block, G.Expression;
      if pos == |tokens| || BeginsPlain(tokens[pos]) {
        var target :- ParseExpression();
        f := Consume(Punct(Semicolon));
        return;
      }
      var t := tokens[pos];
      pos := pos + 1;
      if t == Mark(LBrace) {
        f := ParseBlock();
      } else if t == Word(KwReturn) {
        if !Sees(Punct(Semicolon)) {
          var value :- ParseExpression();
        }
        f := Consume(Punct(Semicolon));
      } else if t == Word(KwBreak) || t == Word(KwContinue) {
        f := Consume(Punct(Semicolon));
      } else {
        if t == Word(KwTrain) {
          :- ParseCondition();
        }
        f := ParseBracedBlock();
      }
    }

    method ParseElseStatement() returns (f: Flow)
      requires Valid()
      modifies this
      ensures Valid() && Ends(f, ElseStatement(tokens, old(Here())))
      decreases |tokens| - pos, 0
    {
      hide Statement;
      var otherwise := Match(Keyword(KwElse));
      if otherwise {
        f := ParseStatement();
        return;
      }
      f := Went;
    }

    /** After `for`. */
    method ParseForStatement() returns (f: Flow)
      requires Valid()
      modifies this
      ensures Valid() && Ends(f, ForStatement(tokens, old(Here())))
      decreases |tokens| - pos, 0
    {
      hide G.Expression, Statement;
      :- Consume(Name);
      :- Consume(Keyword(KwIn));
      var iterable :- ParseExpression();
      f := ParseStatement();
    }

    method ParseBracedBlock() returns (f: Flow)
      requires Valid()
      modifies this
      ensures Valid() && Ends(f, BracedBlock(tokens, old(Here())))
      decreases |tokens| - pos, 0
    {
      hide Block;
      :- Consume(Punct(LBrace));
      f := ParseBlock();
    }

    method ParseLoopStatement() returns (f: Flow)
      requires Valid()
      modifies this
      ensures Valid() && Ends(f, LoopStatement(tokens, old(Here())))
      decreases |tokens| - pos, 1
    {
      hide LoopAnnotation, ForStatement, BracedBlock;
      :- ParseLoopAnnotation();
      var counted := Match(Keyword(KwFor));
      if counted {
        f := ParseForStatement();
        return;
      }
      :- Consume(Keyword(KwLoop));
      f := ParseBracedBlock();
    }

    method ParseLoopAnnotation() returns (f: Flow)
      requires Valid()
      modifies this
      ensures Valid() && Ends(f, LoopAnnotation(tokens, old(Here())))
      decreases |tokens| - pos, 0
    {
      hide LoopBound;
      var annotated := Match(Punct(At));
      if !annotated {
        return Went;
      }
      var bounded := pos < |tokens| && tokens[pos] == Identifier("bounded");
      :- Consume(Name);
      if !bounded {
        errors := errors + 1;
      }
      :- Consume(Punct(LParen));
      :- ParseLoopBound();
      f := Consume(Punct(RParen));
    }

    method ParseLoopBound() returns (f: Flow)
      requires Valid()
      modifies this
      ensures Valid() && Ends(f, LoopBound(tokens, old(Here())))
      decreases |tokens| - pos, 1
    {
      hide Condition, Stoll;
      if Sees(Keyword(KwInfinite)) || Sees(Keyword(KwLoop)) || Sees(Name) {
        var t := tokens[pos];
        pos := pos + 1;
        if t == Word(KwLoop) || t == Identifier("loop") {
          f := ParseCondition();
          return;
        }
        if t != Word(KwInfinite) && t != Identifier("infinite") {
          errors := errors + 1;
        }
      } else if Sees(Whole) {
        if NumberAt(tokens, Here()).None? {
          errors := errors + 1;
        }
        pos := pos + 1;
      } else {
        errors := errors + 1;
      }
      f := Went;
    }

    // ---------- declarations

    method ParseTypeAnnotation() returns (f: Flow)
      requires Valid()
      modifies this
      ensures Valid() && Ends(f, TypeAnnotation(tokens, old(Here())))
      decreases |tokens| - pos, 0
    {
      hide TypeExpr;
      var annotated := Match(Punct(Colon));
      if annotated {
        f := ParseType();
        return;
      }
      f := Went;
    }

    /** After `var`. */
    method ParseVarDeclaration() returns (f: Flow)
      requires Valid()
      modifies this
      ensures Valid() && Ends(f, VarDeclaration(tokens, old(Here())))
      decreases |tokens| - pos, 0
    {
      hide TypeAnnotation, G.Expression;
      :- Consume(Name);
      :- ParseTypeAnnotation();
      var initialized := Match(Punct(Equal));
      if initialized {
        var value :- ParseExpression();
      }
      f := Consume(Punct(Semicolon));
    }

    /** After `let`. */
    method ParseLetDeclaration() returns (f: Flow)
      requires Valid()
      modifies this
      ensures Valid() && Ends(f, LetDeclaration(tokens, old(Here())))
      decreases |tokens| - pos, 0
    {
      hide TypeAnnotation, G.Expression;
      :- Consume(Name);
      :- ParseTypeAnnotation();
      :- Consume(Punct(Equal));
      var value :- ParseExpression();
      f := Consume(Punct(Semicolon));
    }

    /** Names in brackets, or nothing. */
    method ParseGenericNames() returns (f: Flow)
      requires Valid()
      modifies this
      ensures Valid() && Ends(f, GenericNames(tokens, old(Here())))
      decreases |tokens| - pos
    {
      var generic := Match(Punct(LBracket));
      if !generic {
        return Went;
      }
      ghost var from := Here();
      var count, more := 0, true;
      while more
        invariant Valid()
        invariant MoreNames(tokens, from, 0) == if more then MoreNames(tokens, Here(), count) else Done(Here(), false)
        decreases |tokens| - pos, more
      {
        if count >= 8 {
          errors := errors + 1;
          break;
        }
        :- Consume(Name);
        count := count + 1;
        more := Match(Punct(Comma));
      }
      f := Consume(Punct(RBracket));
    }

    method ParseParameterList(typed: bool) returns (f: Flow)
      requires Valid()
      modifies this
      ensures Valid() && Ends(f, ParameterList(tokens, old(Here()), typed))
      decreases |tokens| - pos, 0
    {
      hide FormalParameters;
      :- Consume(Punct(LParen));
      if !Sees(Punct(RParen)) {
        :- ParseFormalParameters(typed);
      }
      f := Consume(Punct(RParen));
    }

    method ParseFormalParameters(typed: bool) returns (f: Flow)
      requires Valid()
      modifies this
      ensures Valid() && Ends(f, FormalParameters(tokens, old(Here()), typed, 0))
      decreases |tokens| - pos, 0
    {
      hide TypeAnnotation;
      var count, more := 0, true;
      while more
        invariant Valid() && pos >= old(pos)
        invariant FormalParameters(tokens, old(Here()), typed, 0) ==
                    if more then FormalParameters(tokens, Here(), typed, count) else Done(Here(), false)
        decreases |tokens| - pos, more
      {
        if count >= 255 {
          errors := errors + 1;
        }
        :- Consume(Name);
        if typed && !Sees(Punct(Colon)) {
          errors := errors + 1;
          return Raised;
        }
        :- ParseTypeAnnotation();
        count := count + 1;
        more := Match(Punct(Comma));
      }
      f := Went;
    }

    /** After `fn`. */
    method ParseFunctionDeclaration() returns (f: Flow)
      requires Valid()
      modifies this
      ensures Valid() && Ends(f, FunctionDeclaration(tokens, old(Here())))
      decreases |tokens| - pos, 0
    {
      hide GenericNames, ParameterList, TypeExpr, BracedBlock;
      :- Consume(Name);
      :- ParseGenericNames();
      :- ParseParameterList(true);
      var returning := Match(Punct(Arrow));
      if returning {
        :- ParseType();
      }
      f := ParseBracedBlock();
    }

    /** After `recurse`. */
    method ParseRecurseDeclaration() returns (f: Flow)
      requires Valid()
      modifies this
      ensures Valid() && Ends(f, RecurseDeclaration(tokens, old(Here())))
      decreases |tokens| - pos, 0
    {
      hide ParameterList, BracedBlock;
      :- Consume(Name);
      :- ParseParameterList(false);
      f := ParseBracedBlock();
    }

    /** After `type`. */
    method ParseTypeDeclaration() returns (f: Flow)
      requires Valid()
      modifies this
      ensures Valid() && Ends(f, TypeDeclaration(tokens, old(Here())))
      decreases |tokens| - pos, 0
    {
      hide GenericNames, TypeExpr;
      :- Consume(Name);
      :- ParseGenericNames();
      :- Consume(Punct(Equal));
      :- ParseType();
      f := Consume(Punct(Semicolon));
    }

    /** After `record`. */
    method ParseRecordDeclaration() returns (f: Flow)
      requires Valid()
      modifies this
      ensures Valid() && Ends(f, RecordDeclaration(tokens, old(Here())))
      decreases |tokens| - pos, 0
    {
      hide Members;
      :- Consume(Name);
      :- Consume(Punct(LBrace));
      :- ParseMembers(true);
      :- Consume(Punct(RBrace));
      f := Consume(Punct(Semicolon));
    }

    /** After `enum`. */
    method ParseEnumDeclaration() returns (f: Flow)
      requires Valid()
      modifies this
      ensures Valid() && Ends(f, EnumDeclaration(tokens, old(Here())))
      decreases |tokens| - pos, 0
    {
      hide Members;
      :- Consume(Name);
      :- Consume(Punct(LBrace));
      :- ParseMembers(false);
      :- Consume(Punct(RBrace));
      f := Consume(Punct(Semicolon));
    }

    /** The loop over the fields of a record or the variants of an enum. */
    method ParseMembers(fields: bool) returns (f: Flow)
      requires Valid()
      modifies this
      ensures Valid() && Ends(f, Members(tokens, old(Here()), fields))
      decreases |tokens| - pos, 1
    {
      hide Field, Variant, SkipPast;
      while pos < |tokens| && !Sees(Punct(RBrace))
        invariant Valid() && pos >= old(pos)
        invariant Members(tokens, old(Here()), fields) == Members(tokens, Here(), fields)
        decreases |tokens| - pos
      {
        if !Sees(Name) {
          errors := errors + 1;
          pos := pos + 1;
          SkipBeyond(false);
        } else if fields {
          :- ParseField();
        } else {
          :- ParseVariant();
        }
      }
      f := Went;
    }

    method ParseField() returns (f: Flow)
      requires Valid()
      modifies this
      ensures Valid() && Ends(f, Field(tokens, old(Here())))
      decreases |tokens| - pos, 0
    {
      hide TypeExpr;
      :- Consume(Name);
      :- Consume(Punct(Colon));
      :- ParseType();
      f := Consume(Punct(Semicolon));
    }

    method ParseVariant() returns (f: Flow)
      requires Valid()
      modifies this
      ensures Valid() && Ends(f, Variant(tokens, old(Here())))
      decreases |tokens| - pos, 0
    {
      hide TypeExpr;
      :- Consume(Name);
      var carries := Match(Punct(LParen));
      if carries {
        :- ParseType();
        :- Consume(Punct(RParen));
      }
      f := Consume(Punct(Semicolon));
    }

    method ParseDeclarationBody() returns (f: Flow)
      requires Valid()
      modifies this
      ensures Valid() && Ends(f, DeclarationBody(tokens, old(Here())))
      decreases |tokens| - pos, 24
    {
      hide StructuralAttributes, FunctionAttributes, RecurseDeclaration, TypeDeclaration, RecordDeclaration,
          EnumDeclaration, FunctionDeclaration;
      hide PlainDeclaration;
      var structural :- ParseStructuralAttributes();
      var functional :- ParseFunctionAttributes();
      var matched := Match(Keyword(KwType));
      if matched {
        f := ParseTypeDeclaration();
        return;
      }
      matched := Match(Keyword(KwRecord));
      if matched {
        f := ParseRecordDeclaration();
        return;
      }
      matched := Match(Keyword(KwEnum));
      if matched {
        f := ParseEnumDeclaration();
        return;
      }
      if structural {
        errors := errors + 1;
      }
      matched := Match(Keyword(KwFn));
      if matched {
        f := ParseFunctionDeclaration();
        return;
      }
      matched := Match(Keyword(KwRecurse));
      if matched {
        f := ParseRecurseDeclaration();
        return;
      }
      if functional {
        errors := errors + 1;
      }
      f := ParsePlainDeclaration();
    }

    method ParsePlainDeclaration() returns (f: Flow)
      requires Valid()
      modifies this
      ensures Valid() && Ends(f, PlainDeclaration(tokens, old(Here())))
      decreases |tokens| - pos, 24
    {
      hide VarDeclaration, LetDeclaration, Statement;
      var matched := Match(Keyword(KwVar));
      if matched {
        f := ParseVarDeclaration();
        return;
      }
      matched := Match(Keyword(KwLet));
      if matched {
        f := ParseLetDeclaration();
        return;
      }
      f := ParseStatement();
    }

    /** An exception in a declaration is caught here. */
    method ParseDeclaration()
      requires Valid()
      modifies this
      ensures Valid() && Here() == Declaration(tokens, old(Here()))
    {
      hide DeclarationBody, Synchronize;
      var f := ParseDeclarationBody();
      if f.Raised? {
        PanicMode();
      }
    }

    /** `parse`. */
    method ParseProgram() returns (declarations: nat)
      requires Valid()
      modifies this
      ensures pos == |tokens|
      ensures (declarations, Here()) == Program(tokens, old(Here()))
    {
      hide Declaration;
      declarations := 0;
      while pos < |tokens|
        invariant Valid()
        invariant var (n, t) := Program(tokens, Here());
                  Program(tokens, old(Here())) == (declarations + n, t)
        decreases |tokens| - pos
      {
        ParseDeclaration();
        declarations := declarations + 1;
      }
    }
  }
}
