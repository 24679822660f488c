/** Parsing and printing undo each other: a tree that respects the levels reads back as
    itself, and an error-free parse yields such a tree, of exactly the tokens consumed. */
module ExprRoundTrip {
  import opened ExprParser

  lemma Front(t: Token, tail: seq<Token>)
    ensures ([t] + tail)[0] == t && ([t] + tail)[1..] == tail
  {
  }

  lemma EndsAbove(m: int, n: int, tail: seq<Token>)
    requires Ends(m, tail) && m <= n
    ensures Ends(n, tail)
  {
  }

  /** The first token of an expression does not depend on what follows it. */
  lemma {:induction false} SameStart(e: Expr, tail: seq<Token>, tail': seq<Token>)
    ensures Print(e, tail)[0] == Print(e, tail')[0]
    decreases e
  {
    match e
    case Binary(l, k, r) => SameStart(l, [Mark(k)] + Print(r, tail), [Mark(k)] + Print(r, tail'));
    case Call(c, args) =>
      SameStart(c, [Mark(LParen)] + PrintAll(args, [Mark(RParen)] + tail),
                [Mark(LParen)] + PrintAll(args, [Mark(RParen)] + tail'));
    case FieldAccess(o, f) => SameStart(o, [Mark(Dot)] + ([f] + tail), [Mark(Dot)] + ([f] + tail'));
    case Index(o, i) =>
      SameStart(o, [Mark(LBracket)] + Print(i, [Mark(RBracket)] + tail),
                [Mark(LBracket)] + Print(i, [Mark(RBracket)] + tail'));
    case Assign(t, v) => SameStart(t, [Mark(Equal)] + Print(v, tail), [Mark(Equal)] + Print(v, tail'));
    case _ =>
  }

  /** It is no closing parenthesis, and in a primary expression no prefix operator. */
  lemma {:induction false} Starts(n: int, e: Expr, tail: seq<Token>)
    requires Fits(n, e)
    ensures Print(e, tail)[0] != Mark(RParen)
    ensures n >= PRIMARY ==> !NextPrefix(Print(e, tail))
    decreases e
  {
    match e
    case Binary(l, k, r) =>
      var m := LevelOf(k);
      Starts(if m == RANGE || m == EXPONENT then m + 1 else m, l, [Mark(k)] + Print(r, tail));
    case Call(c, args) => Starts(PRIMARY, c, [Mark(LParen)] + PrintAll(args, [Mark(RParen)] + tail));
    case FieldAccess(o, f) => Starts(PRIMARY, o, [Mark(Dot)] + ([f] + tail));
    case Index(o, i) => Starts(PRIMARY, o, [Mark(LBracket)] + Print(i, [Mark(RBracket)] + tail));
    case Assign(t, v) => Starts(0, t, [Mark(Equal)] + Print(v, tail));
    case _ =>
  }

  /** A tree with no operator of its level on top stands at the next level too. */
  lemma FitsAbove(n: int, e: Expr)
    requires -1 <= n <= UNARY && Fits(n, e)
    requires !(e.Binary? && LevelOf(e.op) == n) && !(n == UNARY && e.Unary?) && !(n == -1 && e.Assign?)
    ensures Fits(n + 1, e)
  {
  }

  // ---------- printing, then parsing

  /** What follows a variable must not make it something else. */
  predicate Follows(e: Expr, tail: seq<Token>) {
    e.Variable? ==> !Next(tail, LBrace) && !(Next(tail, LBracket) && LooksLikeType(tail[1..]))
  }

  lemma {:induction false} RoundExpression(e: Expr, tail: seq<Token>)
    requires Fits(-1, e) && Ends(-1, tail)
    ensures Expression(Print(e, tail)) == Parsed(e, tail, true)
    decreases e, 50
  {
    hide Level, Print;
    EndsAbove(-1, 0, tail);
    if e.Assign? {
      var rest := [Mark(Equal)] + Print(e.value, tail);
      Front(Mark(Equal), Print(e.value, tail));
      RoundLevel(0, e.target, rest);
      RoundExpression(e.value, tail);
      PrintAssign(e, tail);
    } else {
      FitsAbove(-1, e);
      RoundLevel(0, e, tail);
    }
  }

  lemma PrintAssign(e: Expr, tail: seq<Token>)
    requires e.Assign?
    ensures Print(e, tail) == Print(e.target, [Mark(Equal)] + Print(e.value, tail))
  {
  }

  lemma PrintBinary(e: Expr, tail: seq<Token>)
    requires e.Binary?
    ensures Print(e, tail) == Print(e.left, [Mark(e.op)] + Print(e.right, tail))
  {
  }

  lemma {:induction false} RoundLevel(n: nat, e: Expr, tail: seq<Token>)
    requires n <= UNARY && Fits(n, e) && Ends(n, tail)
    ensures Level(n, Print(e, tail)) == Parsed(e, tail, true)
    decreases e, 2 * (UNARY - n) + 6
  {
    if n == UNARY {
      RoundUnary(e, tail);
    } else if n == RANGE || n == EXPONENT {
      RoundOnce(n, e, tail);
    } else {
      EndsAbove(n, n + 1, tail);
      RoundLoop(n, e, tail);
    }
  }

  /** The levels of `..` and of `**`, whose operator is read once. */
  lemma {:induction false} RoundOnce(n: nat, e: Expr, tail: seq<Token>)
    requires (n == RANGE || n == EXPONENT) && Fits(n, e) && Ends(n, tail)
    ensures Level(n, Print(e, tail)) == Parsed(e, tail, true)
    decreases e, 2 * (UNARY - n) + 5
  {
    hide Print;
    if e.Binary? && LevelOf(e.op) == n {
      var rest := [Mark(e.op)] + Print(e.right, tail);
      PrintBinary(e, tail);
      Front(Mark(e.op), Print(e.right, tail));
      RoundLevel(n + 1, e.left, rest);
      EndsAbove(n, n + 1, tail);
      RoundLevel(if n == EXPONENT then n else n + 1, e.right, tail);
    } else {
      FitsAbove(n, e);
      EndsAbove(n, n + 1, tail);
      RoundLevel(n + 1, e, tail);
    }
  }

  /** Read up to `e`, the loop of a level goes on with what follows. */
  lemma {:induction false} RoundLoop(n: nat, e: Expr, tail: seq<Token>)
    requires n < UNARY && n != RANGE && n != EXPONENT && Fits(n, e) && Ends(n + 1, tail)
    ensures Level(n, Print(e, tail)) == Loop(n, e, tail, true)
    decreases e, 2 * (UNARY - n) + 5
  {
    hide Print;
    if e.Binary? && LevelOf(e.op) == n {
      var rest := [Mark(e.op)] + Print(e.right, tail);
      PrintBinary(e, tail);
      Front(Mark(e.op), Print(e.right, tail));
      RoundLoop(n, e.left, rest);
      RoundLevel(n + 1, e.right, tail);
    } else {
      FitsAbove(n, e);
      RoundLevel(n + 1, e, tail);
    }
  }

  lemma {:induction false} RoundUnary(e: Expr, tail: seq<Token>)
    requires Fits(UNARY, e) && Ends(UNARY, tail)
    ensures UnaryLevel(Print(e, tail)) == Parsed(e, tail, true)
    decreases e, 4
  {
    if e.Unary? {
      Front(Mark(e.op), Print(e.right, tail));
      RoundUnary(e.right, tail);
    } else {
      FitsAbove(UNARY, e);
      Starts(PRIMARY, e, tail);
      RoundPrimary(e, tail);
    }
  }

  /** Read up to `e`, the postfix loop goes on with what follows. */
  lemma {:induction false} RoundPrimary(e: Expr, tail: seq<Token>)
    requires Fits(PRIMARY, e) && Follows(e, tail)
    ensures Primary(Print(e, tail)) == Postfix(e, tail, true)
    decreases e, 3
  {
    match e
    case Literal(t) => Front(t, tail);
    case Variable(t) => Front(t, tail); RoundVariable(t, tail);
    case Grouping(i) => RoundGrouping(e, tail);
    case Call(c, args) => RoundCall(e, tail);
    case FieldAccess(o, f) => RoundField(e, tail);
    case Index(o, i) => RoundIndex(e, tail);
  }

  lemma RoundVariable(t: Token, tail: seq<Token>)
    requires t.Identifier? && !IsEnumName(t.text) && Follows(Variable(t), tail)
    ensures Primary([t] + tail) == Postfix(Variable(t), tail, true)
  {
    hide IsEnumName, Postfix;
    Front(t, tail);
    assert Next(tail, LBracket) ==> ([t] + tail)[2..] == tail[1..];
  }

  lemma {:induction false} RoundGrouping(e: Expr, tail: seq<Token>)
    requires e.Grouping? && Fits(PRIMARY, e)
    ensures Primary(Print(e, tail)) == Postfix(e, tail, true)
    decreases e, 2
  {
    hide Expression, Postfix;
    var rest := [Mark(RParen)] + tail;
    Front(Mark(LParen), Print(e.inner, rest));
    Front(Mark(RParen), tail);
    RoundExpression(e.inner, rest);
  }

  lemma {:induction false} RoundCall(e: Expr, tail: seq<Token>)
    requires e.Call? && Fits(PRIMARY, e)
    ensures Primary(Print(e, tail)) == Postfix(e, tail, true)
    decreases e, 2
  {
    var close := [Mark(RParen)] + tail;
    var inner := PrintAll(e.arguments, close);
    var rest := [Mark(LParen)] + inner;
    Front(Mark(LParen), inner);
    Front(Mark(RParen), tail);
    RoundPrimary(e.callee, rest);
    hide Primary, Fits;
    if e.arguments == [] {
      assert rest[2..] == tail;
    } else {
      RoundArguments(e.arguments, close);
      StartsAll(e.arguments, close);
      hide Arguments;
      assert e == Call(e.callee, e.arguments);
    }
  }

  lemma StartsAll(es: seq<Expr>, tail: seq<Token>)
    requires es != [] && forall i :: 0 <= i < |es| ==> Fits(-1, es[i])
    ensures !Next(PrintAll(es, tail), RParen)
  {
    if |es| == 1 {
      Starts(-1, es[0], tail);
    } else {
      Starts(-1, es[0], [Mark(Comma)] + PrintAll(es[1..], tail));
    }
  }

  lemma {:induction false} RoundField(e: Expr, tail: seq<Token>)
    requires e.FieldAccess? && Fits(PRIMARY, e)
    ensures Primary(Print(e, tail)) == Postfix(e, tail, true)
    decreases e, 2
  {
    var rest := [Mark(Dot)] + ([e.field] + tail);
    assert rest[0] == Mark(Dot) && rest[1] == e.field && rest[2..] == tail;
    RoundPrimary(e.base, rest);
  }

  lemma {:induction false} RoundIndex(e: Expr, tail: seq<Token>)
    requires e.Index? && Fits(PRIMARY, e)
    ensures Primary(Print(e, tail)) == Postfix(e, tail, true)
    decreases e, 2
  {
    var close := [Mark(RBracket)] + tail;
    var rest := [Mark(LBracket)] + Print(e.index, close);
    Front(Mark(LBracket), Print(e.index, close));
    Front(Mark(RBracket), tail);
    SameStart(e.index, close, []);
    RoundPrimary(e.base, rest);
    RoundExpression(e.index, close);
    hide Primary, Expression, Fits;
  }

  lemma {:induction false} RoundArguments(es: seq<Expr>, tail: seq<Token>)
    requires es != [] && (forall i :: 0 <= i < |es| ==> Fits(-1, es[i]))
    requires Ends(-1, tail) && !Next(tail, Comma)
    ensures Arguments(PrintAll(es, tail)) == ParsedList(es, tail, true)
    decreases es, 0
  {
    hide Expression, Fits;
    if |es| == 1 {
      RoundExpression(es[0], tail);
      assert es == [es[0]];
    } else {
      var rest := [Mark(Comma)] + PrintAll(es[1..], tail);
      Front(Mark(Comma), PrintAll(es[1..], tail));
      RoundExpression(es[0], rest);
      RoundArguments(es[1..], tail);
      assert es == [es[0]] + es[1..];
    }
  }

  // ---------- parsing, then printing

  lemma {:induction false} YieldExpression(ts: seq<Token>)
    requires Expression(ts).Parsed? && Expression(ts).clean
    ensures var r := Expression(ts); Fits(-1, r.expr) && ts == Print(r.expr, r.rest)
    decreases |ts|, 20
  {
    hide Level, Print, Fits;
    var r0 := Level(0, ts);
    YieldLevel(0, ts);
    var r := Expression(ts);
    if Next(r0.rest, Equal) {
      YieldExpression(r0.rest[1..]);
      assert r0.rest == [Mark(Equal)] + r0.rest[1..];
      PrintAssign(r.expr, r.rest);
      AssignFits(r.expr);
    } else {
      FitsBelow(0, -1, r.expr);
    }
  }

  lemma AssignFits(e: Expr)
    requires e.Assign? && IsTarget(e.target) && Fits(0, e.target) && Fits(-1, e.value)
    ensures Fits(-1, e)
  {
  }

  lemma FitsBelow(n: int, m: int, e: Expr)
    requires Fits(n, e) && m <= n
    ensures Fits(m, e)
  {
  }

  lemma BinaryFits(n: int, l: Expr, k: Kind, r: Expr)
    requires LevelOf(k) == n && 0 <= n
    requires Fits(if n == RANGE || n == EXPONENT then n + 1 else n, l)
    requires Fits(if n == EXPONENT then n else n + 1, r)
    ensures Fits(n, Binary(l, k, r))
  {
  }

  lemma {:induction false} YieldLevel(n: nat, ts: seq<Token>)
    requires n <= UNARY && Level(n, ts).Parsed? && Level(n, ts).clean
    ensures var r := Level(n, ts); Fits(n, r.expr) && ts == Print(r.expr, r.rest)
    decreases |ts|, UNARY - n + 2
  {
    hide Print, Fits, UnaryLevel;
    if n == UNARY {
      YieldUnary(ts);
    } else {
      var r := Level(n + 1, ts);
      if n == RANGE {
        CleanOnce(r.expr, r.rest, r.clean);
        YieldLevel(n + 1, ts);
        YieldRange(r.expr, r.rest);
      } else if n == EXPONENT {
        CleanOnce(r.expr, r.rest, r.clean);
        YieldLevel(n + 1, ts);
        YieldExponent(r.expr, r.rest);
      } else {
        CleanLoop(n, r.expr, r.rest, r.clean);
        YieldLevel(n + 1, ts);
        FitsBelow(n + 1, n, r.expr);
        YieldLoop(n, r.expr, r.rest);
      }
    }
  }

  lemma CleanOnce(e: Expr, ts: seq<Token>, clean: bool)
    ensures RangeEnd(e, ts, clean).Parsed? && RangeEnd(e, ts, clean).clean ==> clean
    ensures ExponentEnd(e, ts, clean).Parsed? && ExponentEnd(e, ts, clean).clean ==> clean
  {
    hide Level;
  }

  lemma {:induction false} CleanLoop(n: nat, e: Expr, ts: seq<Token>, clean: bool)
    requires n < UNARY
    ensures Loop(n, e, ts, clean).Parsed? && Loop(n, e, ts, clean).clean ==> clean
    decreases |ts|
  {
    hide Level;
    if NextOp(ts, n) && Level(n + 1, ts[1..]).Parsed? {
      var r := Level(n + 1, ts[1..]);
      CleanLoop(n, Binary(e, ts[0].kind, r.expr), r.rest, clean && r.clean);
    }
  }

  lemma {:induction false} YieldRange(e: Expr, ts: seq<Token>)
    requires Fits(RANGE + 1, e) && RangeEnd(e, ts, true).Parsed? && RangeEnd(e, ts, true).clean
    ensures var r := RangeEnd(e, ts, true); Fits(RANGE, r.expr) && Print(e, ts) == Print(r.expr, r.rest)
    decreases |ts|, 1
  {
    hide Print, Fits, Level;
    FitsBelow(RANGE + 1, RANGE, e);
    if NextOp(ts, RANGE) {
      YieldLevel(RANGE + 1, ts[1..]);
      var r := RangeEnd(e, ts, true);
      assert ts == [ts[0]] + ts[1..];
      PrintBinary(r.expr, r.rest);
      BinaryFits(RANGE, e, ts[0].kind, r.expr.right);
    }
  }

  lemma {:induction false} YieldExponent(e: Expr, ts: seq<Token>)
    requires Fits(EXPONENT + 1, e) && ExponentEnd(e, ts, true).Parsed? && ExponentEnd(e, ts, true).clean
    ensures var r := ExponentEnd(e, ts, true); Fits(EXPONENT, r.expr) && Print(e, ts) == Print(r.expr, r.rest)
    decreases |ts|, 1
  {
    hide Print, Fits, Level;
    FitsBelow(EXPONENT + 1, EXPONENT, e);
    if NextOp(ts, EXPONENT) {
      YieldLevel(EXPONENT, ts[1..]);
      var r := ExponentEnd(e, ts, true);
      assert ts == [ts[0]] + ts[1..];
      PrintBinary(r.expr, r.rest);
      BinaryFits(EXPONENT, e, ts[0].kind, r.expr.right);
    }
  }

  lemma {:induction false} YieldLoop(n: nat, e: Expr, ts: seq<Token>)
    requires n < UNARY && n != RANGE && n != EXPONENT && Fits(n, e)
    requires Loop(n, e, ts, true).Parsed? && Loop(n, e, ts, true).clean
    ensures var r := Loop(n, e, ts, true); Fits(n, r.expr) && Print(e, ts) == Print(r.expr, r.rest)
    decreases |ts|, 1
  {
    hide Print, Fits, Level;
    if NextOp(ts, n) {
      var r := Level(n + 1, ts[1..]);
      var e' := Binary(e, ts[0].kind, r.expr);
      CleanLoop(n, e', r.rest, r.clean);
      YieldLevel(n + 1, ts[1..]);
      assert ts == [ts[0]] + ts[1..];
      PrintBinary(e', r.rest);
      BinaryFits(n, e, ts[0].kind, r.expr);
      YieldLoop(n, e', r.rest);
    }
  }

  lemma {:induction false} YieldUnary(ts: seq<Token>)
    requires UnaryLevel(ts).Parsed? && UnaryLevel(ts).clean
    ensures var r := UnaryLevel(ts); Fits(UNARY, r.expr) && ts == Print(r.expr, r.rest)
    decreases |ts|, 1
  {
    hide Primary;
    if NextPrefix(ts) {
      YieldUnary(ts[1..]);
      assert ts == [ts[0]] + ts[1..];
    } else {
      YieldPrimary(ts);
      FitsBelow(PRIMARY, UNARY, Primary(ts).expr);
    }
  }

  lemma {:induction false} YieldPrimary(ts: seq<Token>)
    requires Primary(ts).Parsed? && Primary(ts).clean
    ensures var r := Primary(ts); Fits(PRIMARY, r.expr) && ts == Print(r.expr, r.rest)
    decreases |ts|, 0
  {
    hide Postfix, Expression;
    assert ts == [ts[0]] + ts[1..];
    match ts[0]
    case Mark(_) =>
      var r := Expression(ts[1..]);
      var e := Grouping(r.expr);
      CleanPostfix(e, r.rest[1..], r.clean);
      YieldExpression(ts[1..]);
      assert r.rest == [Mark(RParen)] + r.rest[1..];
      YieldPostfix(e, r.rest[1..]);
    case Identifier(_) => YieldPostfix(Variable(ts[0]), ts[1..]);
    case _ => YieldPostfix(Literal(ts[0]), ts[1..]);
  }

  lemma {:induction false} CleanPostfix(e: Expr, ts: seq<Token>, clean: bool)
    ensures Postfix(e, ts, clean).Parsed? && Postfix(e, ts, clean).clean ==> clean
    decreases |ts|
  {
    hide Expression, Arguments;
    if Next(ts, Dot) {
      if |ts| > 1 && NamesField(ts[1]) {
        CleanPostfix(FieldAccess(e, ts[1]), ts[2..], clean);
      }
    } else if Next(ts, LParen) {
      if Next(ts[1..], RParen) {
        CleanPostfix(Call(e, []), ts[2..], clean);
      } else {
        var r := Arguments(ts[1..]);
        if r.ParsedList? && Next(r.rest, RParen) {
          CleanPostfix(Call(e, r.exprs), r.rest[1..], clean && r.clean);
        }
      }
    } else if Next(ts, LBracket) {
      var r := Expression(ts[1..]);
      if r.Parsed? && Next(r.rest, RBracket) {
        CleanPostfix(Index(e, r.expr), r.rest[1..], clean && r.clean);
      }
    }
  }

  lemma {:induction false} YieldPostfix(e: Expr, ts: seq<Token>)
    requires Fits(PRIMARY, e) && Postfix(e, ts, true).Parsed? && Postfix(e, ts, true).clean
    requires e.Variable? && Next(ts, LBracket) ==> !LooksLikeType(ts[1..])
    ensures var r := Postfix(e, ts, true); Fits(PRIMARY, r.expr) && Print(e, ts) == Print(r.expr, r.rest)
    decreases |ts|, 0
  {
    hide Expression, Arguments;
    if Next(ts, Dot) {
      var e' := FieldAccess(e, ts[1]);
      assert ts == [Mark(Dot)] + ([ts[1]] + ts[2..]);
      YieldPostfix(e', ts[2..]);
    } else if Next(ts, LParen) {
      YieldCall(e, ts);
    } else if Next(ts, LBracket) {
      YieldIndex(e, ts);
    }
  }

  lemma {:induction false} YieldCall(e: Expr, ts: seq<Token>)
    requires Next(ts, LParen)
    requires Fits(PRIMARY, e) && Postfix(e, ts, true).Parsed? && Postfix(e, ts, true).clean
    ensures var r := Postfix(e, ts, true); Fits(PRIMARY, r.expr) && Print(e, ts) == Print(r.expr, r.rest)
    decreases |ts|, 0, 0
  {
    hide Expression, Arguments;
    assert ts == [Mark(LParen)] + ts[1..];
    if Next(ts[1..], RParen) {
      assert ts[1..] == [Mark(RParen)] + ts[2..];
      YieldPostfix(Call(e, []), ts[2..]);
    } else {
      var r := Arguments(ts[1..]);
      var e' := Call(e, r.exprs);
      CleanPostfix(e', r.rest[1..], r.clean);
      YieldArguments(ts[1..]);
      assert r.rest == [Mark(RParen)] + r.rest[1..];
      YieldPostfix(e', r.rest[1..]);
    }
  }

  lemma {:induction false} YieldIndex(e: Expr, ts: seq<Token>)
    requires Next(ts, LBracket)
    requires Fits(PRIMARY, e) && Postfix(e, ts, true).Parsed? && Postfix(e, ts, true).clean
    requires e.Variable? ==> !LooksLikeType(ts[1..])
    ensures var r := Postfix(e, ts, true); Fits(PRIMARY, r.expr) && Print(e, ts) == Print(r.expr, r.rest)
    decreases |ts|, 0, 0
  {
    hide Expression, Arguments;
    assert ts == [Mark(LBracket)] + ts[1..];
    var r := Expression(ts[1..]);
    var e' := Index(e, r.expr);
    CleanPostfix(e', r.rest[1..], r.clean);
    YieldExpression(ts[1..]);
    assert r.rest == [Mark(RBracket)] + r.rest[1..];
    SameStart(r.expr, r.rest, []);
    YieldPostfix(e', r.rest[1..]);
  }

  lemma {:induction false} YieldArguments(ts: seq<Token>)
    requires Arguments(ts).ParsedList? && Arguments(ts).clean
    ensures var r := Arguments(ts);
            (forall i :: 0 <= i < |r.exprs| ==> Fits(-1, r.exprs[i])) && ts == PrintAll(r.exprs, r.rest)
    decreases |ts|, 21
  {
    hide Expression, Fits;
    YieldExpression(ts);
    var r0 := Expression(ts);
    var r := Arguments(ts);
    if Next(r0.rest, Comma) {
      YieldArguments(r0.rest[1..]);
      assert r0.rest == [Mark(Comma)] + r0.rest[1..];
      assert r.exprs[1..] == Arguments(r0.rest[1..]).exprs;
    }
  }

  // ---------- both

  /** The parser reads a token sequence as a tree, without error and to its end, exactly when
      the tree respects the levels and prints as that sequence. */
  lemma ParsesIff(ts: seq<Token>, e: Expr)
    ensures Expression(ts) == Parsed(e, [], true) <==> Fits(-1, e) && Print(e, []) == ts
  {
    hide Expression, Fits, Print;
    if Expression(ts) == Parsed(e, [], true) {
      YieldExpression(ts);
    }
    if Fits(-1, e) && Print(e, []) == ts {
      RoundExpression(e, []);
    }
  }

  /** The grammar is unambiguous: no two trees that respect the levels print alike. */
  lemma Unambiguous(e: Expr, f: Expr)
    requires Fits(-1, e) && Fits(-1, f) && Print(e, []) == Print(f, [])
    ensures e == f
  {
    hide Expression, Fits, Print;
    RoundExpression(e, []);
    RoundExpression(f, []);
  }

  /** `x["k"]` is read as a generic type and not as an index: a quoted string counts as the
      start of a type. */
  lemma QuotedIndexIsAType()
    ensures var e := Index(Variable(Identifier("x")), Literal(Quoted("k")));
            !Fits(-1, e) && Expression(Print(e, [])) == LeftOut
  {
    var x := Identifier("x");
    var e := Index(Variable(x), Literal(Quoted("k")));
    var ts := [x, Mark(LBracket), Quoted("k"), Mark(RBracket)];
    assert Print(e.index, []) == [Quoted("k")];
    assert Print(e.index, [Mark(RBracket)]) == [Quoted("k"), Mark(RBracket)];
    assert Print(e, []) == ts;
    assert ts[1..][0] == Mark(LBracket) && ts[2..][0] == Quoted("k");
    assert Primary(ts) == LeftOut;
    assert UnaryLevel(ts) == LeftOut;
    Stops(0, ts);
  }

  lemma {:induction false} Stops(n: nat, ts: seq<Token>)
    requires n <= UNARY && UnaryLevel(ts) == LeftOut
    ensures Level(n, ts) == LeftOut
    decreases UNARY - n
  {
    if n < UNARY {
      Stops(n + 1, ts);
    }
  }
}
