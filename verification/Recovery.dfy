/** What the parser does with errors: where panic mode stops, what it costs a block, and
    how the whole parser agrees with the expression parser where that one has an answer. */
module Recovery {
  import opened ExprParser
  import opened Grammar
  import opened Wrappers
  import B = Bytes
  import E = ExprParser
  import G = Grammar
  import R = ExprRoundTrip

  // ---------- panic mode

  /** Panic mode may stop before token `n`. */
  predicate Stop(ts: seq<Token>, n: nat)
    requires 0 < n <= |ts|
  {
    n == |ts| || ts[n - 1] == Mark(Semicolon) || Boundary(ts[n])
  }

  lemma {:induction false} ScanStops(ts: seq<Token>, s: State)
    requires 0 < s.pos <= |ts|
    ensures Stop(ts, Scan(ts, s).pos)
    ensures forall m :: s.pos <= m < Scan(ts, s).pos ==> !Stop(ts, m)
    decreases |ts| - s.pos
  {
    if !Stop(ts, s.pos) {
      ScanStops(ts, Advance(s));
    }
  }

  /** It always consumes a token, and stops at the first place where it may. */
  lemma SynchronizeStops(ts: seq<Token>, s: State)
    requires s.pos < |ts|
    ensures var n := Synchronize(ts, s).pos;
            s.pos < n && Stop(ts, n) && forall m :: s.pos < m < n ==> !Stop(ts, m)
  {
    ScanStops(ts, Advance(s));
  }

  /** A reserved word stops it exactly when it begins a function, a variable, a loop, a condition
      or a return. */
  lemma StopsBeforeIff(x: Token, w: Reserved, rest: seq<Token>)
    requires x != Mark(Semicolon)
    ensures Synchronize([x, Token.Word(w)] + rest, State(0, 0)).pos == 1 <==>
              || w == KwFn || w == KwLet || w == KwVar || w == KwFor || w == KwIf || w == KwWhile || w == KwReturn
  {
    var ts := [x, Token.Word(w)] + rest;
    SynchronizeStops(ts, State(0, 0));
    assert Stop(ts, 1) <==> Boundary(ts[1]);
  }

  /** So it discards a closing brace exactly when it starts there, or when nothing before the
      brace stops it. */
  lemma BraceDiscardedIff(ts: seq<Token>, s: State, b: nat)
    requires s.pos <= b < |ts| && ts[b] == Mark(RBrace)
    ensures b < Synchronize(ts, s).pos <==> forall m :: s.pos < m <= b ==> !Stop(ts, m)
  {
    SynchronizeStops(ts, s);
  }

  /** An error right before the end of a block costs the block its brace: the body goes on to
      a later one. */
  lemma BlockLosesBrace(ts: seq<Token>, s: State)
    requires s.pos < |ts| && !Check(ts, s, Punct(RBrace))
    requires BlockItem(ts, s).Threw? && Check(ts, BlockItem(ts, s).s, Punct(RBrace))
    ensures BlockBody(ts, s).pos > BlockItem(ts, s).s.pos
  {
    hide BlockItem;
  }

  // ---------- numbers

  lemma {:induction false} DigitsAre(t: B.Text, read: nat)
    requires forall i :: 0 <= i < |t| ==> '0' <= t[i] <= '9'
    ensures Digits(t, read) == B.NumberOf(t, read)
    decreases |t|
  {
    if t != [] {
      DigitsAre(t[1..], 10 * read + (t[0] as int - '0' as int));
    }
  }

  /** A number printed in decimal is read back, below 2^63, and refused from there on. */
  lemma NumberReadBack(n: nat)
    ensures Stoll(B.Digits(n)) == if n < 0x8000_0000_0000_0000 then Some(n) else None
  {
    DigitsAre(B.Digits(n), 0);
    B.DigitsReadBack(n);
  }

  // ---------- agreement with the expression parser

  /** The same tokens are left, an error was reported exactly when the tree is not clean, and
      the expression can be assigned to exactly when the tree can. */
  predicate Agrees(ts: seq<Token>, errors: nat, r: Out, p: Parsed)
    requires r.s.pos <= |ts|
  {
    match p
    case Parsed(e, rest, clean) =>
      && r.Done? && rest == ts[r.s.pos..] && (r.flag <==> IsTarget(e))
      && (clean <==> r.s.errors == errors)
    case Thrown => r.Threw?
    case LeftOut => true
  }

  lemma {:induction false} ExpressionAgrees(ts: seq<Token>, s: State)
    requires s.pos <= |ts|
    ensures Agrees(ts, s.errors, G.Expression(ts, s), E.Expression(ts[s.pos..]))
    decreases |ts| - s.pos, 17
  {
    hide G.Level, E.Level;
    var left := G.Level(0, ts, s);
    LevelAgrees(0, ts, s);
    if left.Done? && Check(ts, left.s, Punct(Equal)) {
      ExpressionAgrees(ts, Advance(left.s));
      assert ts[left.s.pos..][1..] == ts[Advance(left.s).pos..];
    }
  }

  lemma {:induction false} LevelAgrees(n: nat, ts: seq<Token>, s: State)
    requires n <= UNARY && s.pos <= |ts|
    ensures Agrees(ts, s.errors, G.Level(n, ts, s), E.Level(n, ts[s.pos..]))
    decreases |ts| - s.pos, UNARY - n + 3
  {
    hide G.UnaryLevel, E.UnaryLevel, Operators, RangeEnd, ExponentEnd, E.Loop;
    if n == UNARY {
      UnaryAgrees(ts, s);
    } else {
      LevelAgrees(n + 1, ts, s);
      var left, tree := G.Level(n + 1, ts, s), E.Level(n + 1, ts[s.pos..]);
      if left.Done? && tree.Parsed? {
        OperatorsAgree(n, ts, left.s, tree.expr, tree.clean, s.errors);
      }
    }
  }

  /** The operators of a rung, after a left operand that was read from `errors` errors on. */
  lemma {:induction false} OperatorsAgree(n: nat, ts: seq<Token>, s: State, e: Expr, clean: bool, errors: nat)
    requires n < UNARY && s.pos <= |ts| && errors <= s.errors && (clean <==> s.errors == errors)
    ensures var tree := if n == RANGE then RangeEnd(e, ts[s.pos..], clean)
                        else if n == EXPONENT then ExponentEnd(e, ts[s.pos..], clean)
                        else E.Loop(n, e, ts[s.pos..], clean);
            Agrees(ts, errors, Operators(n, ts, s, IsTarget(e)), tree)
    decreases |ts| - s.pos, 1
  {
    hide G.Level, E.Level, LevelOf;
    if Operator(ts, s, n) {
      var m := if n == EXPONENT then n else n + 1;
      var after := Advance(s);
      LevelAgrees(m, ts, after);
      assert ts[s.pos..][1..] == ts[after.pos..];
      var right, tree := G.Level(m, ts, after), E.Level(m, ts[after.pos..]);
      if right.Done? && tree.Parsed? && n != RANGE && n != EXPONENT {
        OperatorsAgree(n, ts, right.s, Binary(e, ts[s.pos].kind, tree.expr), clean && tree.clean, errors);
      }
    }
  }

  lemma {:induction false} UnaryAgrees(ts: seq<Token>, s: State)
    requires s.pos <= |ts|
    ensures Agrees(ts, s.errors, G.UnaryLevel(ts, s), E.UnaryLevel(ts[s.pos..]))
    decreases |ts| - s.pos, 2
  {
    hide G.Primary, E.Primary, IsPrefix;
    if Prefix(ts, s) {
      UnaryAgrees(ts, Advance(s));
      assert ts[s.pos..][1..] == ts[Advance(s).pos..];
    } else {
      PrimaryAgrees(ts, s);
    }
  }

  lemma {:induction false} PrimaryAgrees(ts: seq<Token>, s: State)
    requires s.pos <= |ts|
    ensures Agrees(ts, s.errors, G.Primary(ts, s), E.Primary(ts[s.pos..]))
    decreases |ts| - s.pos, 1
  {
    hide G.Postfix, E.Postfix, G.Expression, E.Expression, IsEnumName, GenericType, RecordLiteral, VectorLiteral;
    hide BlockExpression, MatchExpression, IfExpression, TypeExpr;
    if s.pos < |ts| {
      var t, s1 := ts[s.pos], Advance(s);
      assert ts[s.pos..][1..] == ts[s1.pos..];
      if t.Constant? || t.Quoted? || t.Truth? || t.Symbol? {
        PostfixAgrees(ts, s1, Literal(t), true, s.errors);
      } else if t.Identifier? {
        PostfixAgrees(ts, s1, Variable(t), true, s.errors);
        LookAhead(ts, s1);
      } else if t == Mark(LParen) {
        ExpressionAgrees(ts, s1);
        var inner, tree := G.Expression(ts, s1), E.Expression(ts[s1.pos..]);
        if inner.Done? && tree.Parsed? && Check(ts, inner.s, Punct(RParen)) {
          assert ts[inner.s.pos..][1..] == ts[Advance(inner.s).pos..];
          PostfixAgrees(ts, Advance(inner.s), Grouping(tree.expr), tree.clean, s.errors);
        }
      }
    }
  }

  /** Both parsers look for a type behind the same bracket. */
  lemma LookAhead(ts: seq<Token>, s: State)
    requires s.pos <= |ts|
    ensures Next(ts[s.pos..], LBrace) <==> Check(ts, s, Punct(LBrace))
    ensures Next(ts[s.pos..], LBracket) <==> Check(ts, s, Punct(LBracket))
    ensures Check(ts, s, Punct(LBracket)) ==> (LooksLikeType(ts[s.pos..][1..]) <==> TypeLike(ts, s.pos + 1))
  {
    if s.pos < |ts| {
      assert ts[s.pos..][1..] == ts[s.pos + 1..];
    }
  }

  /** One round of the postfix loop, on both sides. */
  lemma PostfixUnfolds(ts: seq<Token>, s: State, target: bool)
    requires s.pos <= |ts|
    ensures Check(ts, s, Punct(LBracket)) ==>
              var inner := G.Expression(ts, Advance(s));
              G.Postfix(ts, s, target) ==
                if inner.Threw? then inner
                else if !Check(ts, inner.s, Punct(RBracket)) then Threw(Error(inner.s))
                else G.Postfix(ts, Advance(inner.s), true)
    ensures Check(ts, s, Punct(LParen)) ==>
              var s1 := Advance(s);
              var inner := if Check(ts, s1, Punct(RParen)) then Done(s1, false) else G.Arguments(ts, s1);
              G.Postfix(ts, s, target) ==
                if inner.Threw? then inner
                else if !Check(ts, inner.s, Punct(RParen)) then Threw(Error(inner.s))
                else G.Postfix(ts, Advance(inner.s), false)
  {
    hide G.Expression, G.Arguments;
  }

  lemma TreePostfixUnfolds(ts: seq<Token>, e: Expr, clean: bool)
    ensures Next(ts, LBracket) ==>
              E.Postfix(e, ts, clean) == match E.Expression(ts[1..])
                case Parsed(i, rest, clean') =>
                  if Next(rest, RBracket) then E.Postfix(Index(e, i), rest[1..], clean && clean') else Thrown
                case stop => stop
    ensures Next(ts, LParen) && !Next(ts[1..], RParen) ==>
              E.Postfix(e, ts, clean) == match E.Arguments(ts[1..])
                case ParsedList(arguments, rest, clean') =>
                  if Next(rest, RParen) then E.Postfix(Call(e, arguments), rest[1..], clean && clean') else Thrown
                case ListThrown => Thrown
                case ListLeftOut => LeftOut
    ensures Next(ts, LParen) && Next(ts[1..], RParen) ==>
            E.Postfix(e, ts, clean) == E.Postfix(Call(e, []), ts[2..], clean)
  {
    hide E.Expression, E.Arguments;
  }

  lemma {:induction false} PostfixAgrees(ts: seq<Token>, s: State, e: Expr, clean: bool, errors: nat)
    requires s.pos <= |ts| && errors <= s.errors && (clean <==> s.errors == errors)
    ensures Agrees(ts, errors, G.Postfix(ts, s, IsTarget(e)), E.Postfix(e, ts[s.pos..], clean))
    decreases |ts| - s.pos, 0
  {
    hide G.Expression, E.Expression, G.Arguments, E.Arguments;
    if Check(ts, s, Punct(Dot)) {
      var s1 := Advance(s);
      if s1.pos < |ts| && NamesField(ts[s1.pos]) {
        assert ts[s.pos..][2..] == ts[Advance(s1).pos..];
        PostfixAgrees(ts, Advance(s1), FieldAccess(e, ts[s1.pos]), clean, errors);
      }
    } else if Check(ts, s, Punct(LParen)) {
      CallAgrees(ts, s, e, clean, errors);
    } else if Check(ts, s, Punct(LBracket)) {
      IndexAgrees(ts, s, e, clean, errors);
    }
  }

  lemma {:induction false} IndexAgrees(ts: seq<Token>, s: State, e: Expr, clean: bool, errors: nat)
    requires s.pos <= |ts| && errors <= s.errors && (clean <==> s.errors == errors)
    requires Check(ts, s, Punct(LBracket))
    ensures Agrees(ts, errors, G.Postfix(ts, s, IsTarget(e)), E.Postfix(e, ts[s.pos..], clean))
    decreases |ts| - s.pos, 0, 0
  {
    hide G.Expression, E.Expression, G.Postfix, E.Postfix;
    PostfixUnfolds(ts, s, IsTarget(e));
    TreePostfixUnfolds(ts[s.pos..], e, clean);
    var s1 := Advance(s);
    assert ts[s.pos..][1..] == ts[s1.pos..];
    ExpressionAgrees(ts, s1);
    var inner, tree := G.Expression(ts, s1), E.Expression(ts[s1.pos..]);
    if inner.Done? && tree.Parsed? && Check(ts, inner.s, Punct(RBracket)) {
      assert ts[inner.s.pos..][1..] == ts[Advance(inner.s).pos..];
      PostfixAgrees(ts, Advance(inner.s), Index(e, tree.expr), clean && tree.clean, errors);
    }
  }

  lemma {:induction false} CallAgrees(ts: seq<Token>, s: State, e: Expr, clean: bool, errors: nat)
    requires s.pos <= |ts| && errors <= s.errors && (clean <==> s.errors == errors)
    requires Check(ts, s, Punct(LParen))
    ensures Agrees(ts, errors, G.Postfix(ts, s, IsTarget(e)), E.Postfix(e, ts[s.pos..], clean))
    decreases |ts| - s.pos, 0, 1
  {
    hide G.Arguments, E.Arguments, G.Postfix, E.Postfix, IsTarget, Agrees;
    var s1 := Advance(s);
    assert ts[s.pos..][1..] == ts[s1.pos..];
    if Check(ts, s1, Punct(RParen)) {
      PostfixUnfolds(ts, s, IsTarget(e));
      TreePostfixUnfolds(ts[s.pos..], e, clean);
      assert ts[s.pos..][2..] == ts[Advance(s1).pos..];
      PostfixAgrees(ts, Advance(s1), Call(e, []), clean, errors);
      assert !IsTarget(Call(e, [])) by { NoTarget(e, []); }
    } else {
      FullCallAgrees(ts, s, e, clean, errors);
    }
  }

  lemma NoTarget(e: Expr, arguments: seq<Expr>)
    ensures !IsTarget(Call(e, arguments))
  {
  }

  lemma {:induction false} FullCallAgrees(ts: seq<Token>, s: State, e: Expr, clean: bool, errors: nat)
    requires s.pos <= |ts| && errors <= s.errors && (clean <==> s.errors == errors)
    requires Check(ts, s, Punct(LParen)) && !Check(ts, Advance(s), Punct(RParen))
    ensures Agrees(ts, errors, G.Postfix(ts, s, IsTarget(e)), E.Postfix(e, ts[s.pos..], clean))
    decreases |ts| - s.pos, 0, 0
  {
    hide G.Arguments, E.Arguments, G.Postfix, E.Postfix, IsTarget;
    PostfixUnfolds(ts, s, IsTarget(e));
    TreePostfixUnfolds(ts[s.pos..], e, clean);
    var s1 := Advance(s);
    assert ts[s.pos..][1..] == ts[s1.pos..];
    ArgumentsAgree(ts, s1);
    var inner, trees := G.Arguments(ts, s1), E.Arguments(ts[s1.pos..]);
    if inner.Done? && trees.ParsedList? && Check(ts, inner.s, Punct(RParen)) {
      assert ts[inner.s.pos..][1..] == ts[Advance(inner.s).pos..];
      NoTarget(e, trees.exprs);
      PostfixAgrees(ts, Advance(inner.s), Call(e, trees.exprs), clean && trees.clean, errors);
    }
  }

  lemma {:induction false} ArgumentsAgree(ts: seq<Token>, s: State)
    requires s.pos <= |ts|
    ensures var r := G.Arguments(ts, s);
            match E.Arguments(ts[s.pos..])
            case ParsedList(_, rest, clean) => r.Done? && rest == ts[r.s.pos..] && (clean <==> r.s.errors == s.errors)
            case ListThrown => r.Threw?
            case ListLeftOut => true
    decreases |ts| - s.pos, 18
  {
    hide G.Expression, E.Expression;
    ExpressionAgrees(ts, s);
    var first, tree := G.Expression(ts, s), E.Expression(ts[s.pos..]);
    if first.Done? && tree.Parsed? && Check(ts, first.s, Punct(Comma)) {
      assert ts[first.s.pos..][1..] == ts[Advance(first.s).pos..];
      ArgumentsAgree(ts, Advance(first.s));
    }
  }

  // ---------- programs

  lemma NoAttributes(ts: seq<Token>, s: State)
    requires s.pos <= |ts| && !Check(ts, s, Punct(At))
    ensures StructuralAttributes(ts, s, false, false, false) == Done(s, false)
    ensures FunctionAttributes(ts, s, false, false) == Done(s, false)
  {
  }

  /** Expressions one after the other, each with its semicolon. */
  function PrintStatements(es: seq<Expr>): seq<Token> {
    if es == [] then [] else Print(es[0], [Mark(Semicolon)] + PrintStatements(es[1..]))
  }

  /** What an expression can begin with. */
  predicate BeginsExpression(t: Token) {
    || t.Constant? || t.Quoted? || t.Truth? || t.Symbol? || t.Identifier?
    || (t.Mark? && (t.kind.LParen? || IsPrefix(t.kind)))
  }

  lemma {:induction false} FirstToken(n: int, e: Expr, tail: seq<Token>)
    requires Fits(n, e)
    ensures BeginsExpression(Print(e, tail)[0])
    decreases e
  {
    match e
    case Binary(l, k, r) =>
      var m := LevelOf(k);
      FirstToken(if m == RANGE || m == EXPONENT then m + 1 else m, l, [Mark(k)] + Print(r, tail));
    case Call(c, args) => FirstToken(PRIMARY, c, [Mark(LParen)] + PrintAll(args, [Mark(RParen)] + tail));
    case FieldAccess(o, f) => FirstToken(PRIMARY, o, [Mark(Dot)] + ([f] + tail));
    case Index(o, i) => FirstToken(PRIMARY, o, [Mark(LBracket)] + Print(i, [Mark(RBracket)] + tail));
    case Assign(t, v) => FirstToken(0, t, [Mark(Equal)] + Print(v, tail));
    case _ =>
  }

  /** A levelled expression is read up to what ends it. */
  lemma ExpressionParses(ts: seq<Token>, s: State, e: Expr, tail: seq<Token>)
    requires s.pos <= |ts| && Fits(-1, e) && Ends(-1, tail) && ts[s.pos..] == Print(e, tail)
    ensures |tail| <= |ts| && ts[|ts| - |tail|..] == tail && s.pos < |ts| - |tail|
    ensures G.Expression(ts, s) == Done(State(|ts| - |tail|, s.errors), IsTarget(e))
  {
    hide G.Expression, E.Expression, Fits, Print, Ends, IsTarget;
    R.RoundExpression(e, tail);
    ExpressionAgrees(ts, s);
    assert |ts[G.Expression(ts, s).s.pos..]| == |tail|;
  }

  lemma SemicolonAhead(ts: seq<Token>, n: nat, rest: seq<Token>)
    requires n <= |ts| && ts[n..] == [Mark(Semicolon)] + rest
    ensures n < |ts| && ts[n] == Mark(Semicolon) && ts[n + 1..] == rest
  {
    assert ts[n] == ts[n..][0];
    assert ts[n + 1..] == ts[n..][1..];
  }

  /** A levelled expression with its semicolon is read as one declaration, without errors. */
  lemma StatementParses(ts: seq<Token>, s: State, e: Expr, rest: seq<Token>) returns (n: nat)
    requires s.pos <= |ts| && Fits(-1, e) && ts[s.pos..] == Print(e, [Mark(Semicolon)] + rest)
    ensures s.pos < n <= |ts| && ts[n..] == rest
    ensures Declaration(ts, s) == State(n, s.errors)
  {
    hide G.Expression, Fits, Print, Declaration, BeginsExpression, IsTarget, Ends, Check, ClassOf;
    var tail := [Mark(Semicolon)] + rest;
    SemicolonEnds(rest);
    FirstToken(-1, e, tail);
    BeginsAt(ts, s.pos, Print(e, tail));
    ExpressionParses(ts, s, e, tail);
    SemicolonAhead(ts, |ts| - |tail|, rest);
    DeclarationOfExpression(ts, s, |ts| - |tail|, IsTarget(e));
    n := |ts| - |tail| + 1;
  }

  lemma SemicolonEnds(rest: seq<Token>)
    ensures Ends(-1, [Mark(Semicolon)] + rest)
  {
  }

  lemma BeginsAt(ts: seq<Token>, n: nat, us: seq<Token>)
    requires n <= |ts| && ts[n..] == us && us != []
    ensures n < |ts| && ts[n] == us[0]
  {
  }

  lemma DeclarationOfExpression(ts: seq<Token>, s: State, n: nat, target: bool)
    requires s.pos < |ts| && BeginsExpression(ts[s.pos])
    requires G.Expression(ts, s) == Done(State(n, s.errors), target) && n < |ts| && ts[n] == Mark(Semicolon)
    ensures Declaration(ts, s) == State(n + 1, s.errors)
  {
    hide G.Expression, StructuralAttributes, FunctionAttributes, SimpleStatement, Synchronize;
    NoAttributes(ts, s);
    SimpleOfExpression(ts, s);
  }

  lemma SimpleOfExpression(ts: seq<Token>, s: State)
    requires s.pos < |ts| && BeginsExpression(ts[s.pos])
    requires G.Expression(ts, s).Done? && Check(ts, G.Expression(ts, s).s, Punct(Semicolon))
    ensures SimpleStatement(ts, s) == Done(Advance(G.Expression(ts, s).s), false)
  {
    hide G.Expression;
  }

  lemma {:induction false} StatementsParse(ts: seq<Token>, s: State, es: seq<Expr>)
    requires s.pos <= |ts| && ts[s.pos..] == PrintStatements(es)
    requires forall i :: 0 <= i < |es| ==> Fits(-1, es[i])
    ensures Program(ts, s) == (|es|, State(|ts|, s.errors))
    decreases |es|
  {
    hide Declaration, Fits, Print;
    if es != [] {
      var n := StatementParses(ts, s, es[0], PrintStatements(es[1..]));
      StatementsParse(ts, Declaration(ts, s), es[1..]);
    }
  }

  /** So the whole parser reads every list of levelled expressions back, without errors. */
  lemma PrintedProgramParses(es: seq<Expr>)
    requires forall i :: 0 <= i < |es| ==> Fits(-1, es[i])
    ensures var ts := PrintStatements(es); Program(ts, State(0, 0)) == (|es|, State(|ts|, 0))
  {
    var ts := PrintStatements(es);
    assert ts[0..] == ts;
    StatementsParse(ts, State(0, 0), es);
  }

  // ---------- statements that blocks do not read

  /** Where no expression begins, the ladder throws with one error; where one does, it moves
      on before it throws. */
  lemma {:induction false} LadderThrows(n: nat, ts: seq<Token>, s: State)
    requires n <= UNARY && s.pos < |ts| && !Prefix(ts, s)
    ensures G.Primary(ts, s) == Threw(Error(s)) ==> G.Level(n, ts, s) == Threw(Error(s))
    ensures G.Primary(ts, s).s.pos > s.pos ==> G.Level(n, ts, s).s.pos > s.pos
    decreases UNARY - n
  {
    hide G.Primary;
    if n < UNARY {
      LadderThrows(n + 1, ts, s);
    }
  }

  lemma ExpressionThrows(ts: seq<Token>, s: State)
    requires s.pos < |ts| && !Prefix(ts, s)
    ensures G.Primary(ts, s) == Threw(Error(s)) ==> G.Expression(ts, s) == Threw(Error(s))
    ensures G.Primary(ts, s).s.pos > s.pos ==> G.Expression(ts, s).s.pos > s.pos
  {
    hide G.Level, G.Primary;
    LadderThrows(0, ts, s);
  }

  lemma PrimaryOfWord(ts: seq<Token>, s: State, w: Reserved)
    requires s.pos < |ts| && ts[s.pos] == Word(w)
    ensures !Opens(w) ==> G.Primary(ts, s) == Threw(Error(s))
    ensures Opens(w) ==> G.Primary(ts, s).s.pos > s.pos
  {
    hide G.Expression, G.Postfix, MatchExpression, Condition, BlockExpression, ElseExpression;
  }

  /** Words that begin a declaration or a statement at the top level and none in a block. */
  predicate TopLevelOnly(w: Reserved) {
    w.KwRecurse? || w.KwDistributed? || w.KwInfinite? || w.KwTrain?
  }

  /** Words that begin neither. */
  predicate Useless(w: Reserved) {
    w.KwModule? || w.KwConst? || w.KwExport? || w.KwElse? || w.KwIn? || w.StringType? || w.Stray?
  }

  /** Words that begin a statement. */
  predicate StatementWord(w: Reserved) {
    || w.KwIf? || w.KwWhile? || w.KwFor? || w.KwLoop? || w.KwReflect? || w.KwDistributed? || w.KwInfinite?
    || w.KwTrain? || w.KwBreak? || w.KwContinue? || w.KwReturn?
  }

  lemma SimpleOfWord(ts: seq<Token>, s: State, w: Reserved)
    requires s.pos < |ts| && ts[s.pos] == Word(w) && !w.KwIf? && !w.KwWhile? && !w.KwFor? && !w.KwLoop?
    ensures SimpleStatement(ts, s) == Threw(Error(s)) <==> !StatementWord(w) && !Opens(w)
  {
    hide G.Expression, Condition, BracedBlock, Block, G.Primary;
    PrimaryOfWord(ts, s, w);
    ExpressionThrows(ts, s);
  }

  lemma StatementOfWord(ts: seq<Token>, s: State, w: Reserved)
    requires s.pos < |ts| && ts[s.pos] == Word(w)
    ensures Statement(ts, s) == Threw(Error(s)) <==> !StatementWord(w) && !Opens(w)
  {
    hide Condition, ElseStatement, ForStatement, SimpleStatement, BracedBlock, Opens;
    if !w.KwIf? && !w.KwWhile? && !w.KwFor? && !w.KwLoop? {
      SimpleOfWord(ts, s, w);
    } else if w.KwLoop? {
      assert LoopAnnotation(ts, s) == Done(s, false);
    }
  }

  lemma ExpressionItemOfWord(ts: seq<Token>, s: State, w: Reserved)
    requires s.pos < |ts| && ts[s.pos] == Word(w)
    ensures ExpressionItem(ts, s) == Threw(Error(s)) <==> !Opens(w)
  {
    hide G.Expression, G.Primary;
    PrimaryOfWord(ts, s, w);
    ExpressionThrows(ts, s);
  }

  lemma PlainItemOfWord(ts: seq<Token>, s: State, w: Reserved)
    requires s.pos < |ts| && ts[s.pos] == Word(w)
    requires !w.KwType? && !w.KwRecord? && !w.KwEnum? && !w.KwFn?
    ensures PlainItem(ts, s) == Threw(Error(s)) <==> TopLevelOnly(w) || Useless(w)
  {
    hide VarDeclaration, LetDeclaration, IfItem, Statement, ExpressionItem;
    StatementOfWord(ts, s, w);
    ExpressionItemOfWord(ts, s, w);
  }

  lemma PlainDeclarationOfWord(ts: seq<Token>, s: State, w: Reserved)
    requires s.pos < |ts| && ts[s.pos] == Word(w)
    requires !w.KwType? && !w.KwRecord? && !w.KwEnum? && !w.KwFn? && !w.KwRecurse?
    ensures PlainDeclaration(ts, s) == Threw(Error(s)) <==> Useless(w)
  {
    hide VarDeclaration, LetDeclaration, Statement;
    StatementOfWord(ts, s, w);
  }

  /** A block refuses a word on the spot exactly when it is one of those; at the top level
      only the useless ones are refused.  So `recurse`, `distributed`, `infinite` and `train`
      are read outside functions and not inside. */
  lemma RefusedIff(ts: seq<Token>, s: State, w: Reserved)
    requires s.pos < |ts| && ts[s.pos] == Word(w)
    ensures BlockItem(ts, s) == Threw(Error(s)) <==> TopLevelOnly(w) || Useless(w)
    ensures DeclarationBody(ts, s) == Threw(Error(s)) <==> Useless(w)
  {
    hide StructuralAttributes, FunctionAttributes, PlainItem, PlainDeclaration;
    hide TypeDeclaration, RecordDeclaration, EnumDeclaration, FunctionDeclaration, RecurseDeclaration;
    NoAttributes(ts, s);
    if !w.KwType? && !w.KwRecord? && !w.KwEnum? && !w.KwFn? {
      PlainItemOfWord(ts, s, w);
      if !w.KwRecurse? {
        PlainDeclarationOfWord(ts, s, w);
      }
    }
  }

  // ---------- a brace that is lost

  /** A function whose last statement lacks its value, and a second function. */
  function Unfinished(): seq<Token> {
    [Word(KwFn), Identifier("f"), Mark(LParen), Mark(RParen), Mark(LBrace),
     Word(KwLet), Identifier("a"), Mark(Equal), Mark(RBrace),
     Word(KwFn), Identifier("g"), Mark(LParen), Mark(RParen), Mark(LBrace), Mark(RBrace)]
  }

  lemma BraceThrows(ts: seq<Token>, s: State)
    requires Check(ts, s, Punct(RBrace))
    ensures G.Expression(ts, s) == Threw(Error(s))
  {
    hide G.Level;
    assert !IsPrefix(RBrace);
    ExpressionThrows(ts, s);
  }

  /** A declaration that lacks its value throws where the value should be. */
  lemma LetWithoutValue(ts: seq<Token>, s: State)
    requires Check(ts, s, Name) && Check(ts, Advance(s), Punct(Equal)) && Check(ts, Advance(Advance(s)), Punct(RBrace))
    ensures LetDeclaration(ts, s) == Threw(Error(Advance(Advance(s))))
  {
    hide G.Expression, ClassOf, TypeExpr;
    BraceThrows(ts, Advance(Advance(s)));
  }

  /** The declaration of `a` throws at the brace. */
  lemma LetThrows()
    ensures LetDeclaration(Unfinished(), State(6, 0)) == Threw(State(8, 1))
  {
    hide LetDeclaration;
    LetWithoutValue(Unfinished(), State(6, 0));
  }

  lemma ItemThrows()
    ensures BlockItem(Unfinished(), State(5, 0)) == Threw(State(8, 1))
  {
    hide LetDeclaration, StructuralAttributes, FunctionAttributes;
    NoAttributes(Unfinished(), State(5, 0));
    LetThrows();
  }

  lemma NoParameters(ts: seq<Token>, s: State)
    requires s.pos + 1 < |ts| && ts[s.pos] == Mark(LParen) && ts[s.pos + 1] == Mark(RParen)
    ensures ParameterList(ts, s, true) == Done(Advance(Advance(s)), false)
  {
  }

  lemma EmptyBlock(ts: seq<Token>, s: State)
    requires Check(ts, s, Punct(RBrace))
    ensures Block(ts, s) == Done(Advance(s), false)
  {
  }

  /** A function without parameters and result is its block. */
  lemma PlainFunction(ts: seq<Token>, s: State)
    requires s.pos + 3 < |ts| && ts[s.pos].Identifier?
    requires ts[s.pos + 1] == Mark(LParen) && ts[s.pos + 2] == Mark(RParen) && ts[s.pos + 3] == Mark(LBrace)
    ensures FunctionDeclaration(ts, s) == Block(ts, s.(pos := s.pos + 4))
  {
    hide ParameterList, Block, TypeExpr, MoreNames;
    NoParameters(ts, Advance(s));
    assert GenericNames(ts, Advance(s)) == Done(Advance(s), false);
    assert BracedBlock(ts, s.(pos := s.pos + 3)) == Block(ts, s.(pos := s.pos + 4));
  }

  /** The second function. */
  lemma SecondParses()
    ensures FunctionDeclaration(Unfinished(), State(10, 1)) == Done(State(15, 1), false)
  {
    hide Block, FunctionDeclaration;
    PlainFunction(Unfinished(), State(10, 1));
    EmptyBlock(Unfinished(), State(14, 1));
  }

  /** It is read inside the first. */
  lemma SecondInside()
    ensures BlockItem(Unfinished(), State(9, 1)) == Done(State(15, 1), false)
  {
    hide FunctionDeclaration, StructuralAttributes, FunctionAttributes;
    NoAttributes(Unfinished(), State(9, 1));
    SecondParses();
  }

  lemma BodyRunsOut()
    ensures BlockBody(Unfinished(), State(5, 0)) == State(15, 1)
  {
    hide BlockItem;
    var ts := Unfinished();
    ItemThrows();
    SecondInside();
    assert Synchronize(ts, State(8, 1)) == State(9, 1);
    assert BlockBody(ts, State(9, 1)) == State(15, 1);
  }

  lemma FirstThrows()
    ensures FunctionDeclaration(Unfinished(), State(1, 0)) == Threw(State(15, 2))
  {
    hide BlockBody, FunctionDeclaration;
    PlainFunction(Unfinished(), State(1, 0));
    BodyRunsOut();
  }

  /** Panic mode takes the brace of the first function, whose body then takes the second
      function and runs into the end: two errors, and neither function is declared. */
  lemma BraceIsLost()
    ensures DeclarationBody(Unfinished(), State(0, 0)) == Threw(State(15, 2))
    ensures Program(Unfinished(), State(0, 0)) == (1, State(15, 2))
  {
    hide FunctionDeclaration, StructuralAttributes, FunctionAttributes;
    NoAttributes(Unfinished(), State(0, 0));
    FirstThrows();
  }
}
