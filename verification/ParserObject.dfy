/** The parser as it runs: one object that consumes tokens, one method a rung, and loops
    where the grammar repeats. */
module ParserObject {
  import opened ExprParser
  import P = ExprParser

  /** What a method returns; `Raised` is an exception on its way to the caller. */
  datatype Outcome = Got(expr: Expr) | Raised | Skipped

  datatype Arguments = Listed(exprs: seq<Expr>) | Failed(outcome: Outcome)

  /** The outcome and the parser left behind are what the specification says. */
  predicate Answers(p: Parsed, was: bool, o: Outcome, rest: seq<Token>, clean: bool) {
    match p
    case Parsed(e, r, c) => o == Got(e) && rest == r && clean == (was && c)
    case Thrown => o == Raised
    case LeftOut => o == Skipped
  }

  /** A specification that starts from trees with errors behind them. */
  function Tainted(p: Parsed, was: bool): Parsed {
    match p
    case Parsed(e, r, c) => Parsed(e, r, was && c)
    case stop => stop
  }

  lemma {:induction false} LoopTaint(n: nat, e: Expr, ts: seq<Token>, was: bool)
    requires n < UNARY
    ensures Loop(n, e, ts, was) == Tainted(Loop(n, e, ts, true), was)
    decreases |ts|
  {
    hide Level;
    if NextOp(ts, n) && Level(n + 1, ts[1..]).Parsed? {
      var r := Level(n + 1, ts[1..]);
      LoopTaint(n, Binary(e, ts[0].kind, r.expr), r.rest, was && r.clean);
      LoopTaint(n, Binary(e, ts[0].kind, r.expr), r.rest, r.clean);
    }
  }

  lemma EndTaint(e: Expr, ts: seq<Token>, was: bool)
    ensures RangeEnd(e, ts, was) == Tainted(RangeEnd(e, ts, true), was)
    ensures ExponentEnd(e, ts, was) == Tainted(ExponentEnd(e, ts, true), was)
  {
    hide Level;
  }

  /** Arguments that continue others. */
  function After(before: seq<Expr>, was: bool, l: ParsedList): ParsedList {
    match l
    case ParsedList(es, r, c) => ParsedList(before + es, r, was && c)
    case stop => stop
  }

  lemma OneMore(before: seq<Expr>, was: bool, e: Expr, c: bool, l: ParsedList)
    requires l.ParsedList?
    ensures After(before, was, ParsedList([e] + l.exprs, l.rest, c && l.clean)) == After(before + [e], was && c, l)
  {
    assert before + ([e] + l.exprs) == (before + [e]) + l.exprs;
  }

  lemma {:induction false} PostfixTaint(e: Expr, ts: seq<Token>, was: bool)
    ensures Postfix(e, ts, was) == Tainted(Postfix(e, ts, true), was)
    decreases |ts|
  {
    hide Expression, P.Arguments;
    if Next(ts, Dot) {
      if |ts| > 1 && NamesField(ts[1]) {
        PostfixTaint(FieldAccess(e, ts[1]), ts[2..], was);
      }
    } else if Next(ts, LParen) {
      if Next(ts[1..], RParen) {
        PostfixTaint(Call(e, []), ts[2..], was);
      } else {
        var r := P.Arguments(ts[1..]);
        if r.ParsedList? && Next(r.rest, RParen) {
          PostfixTaint(Call(e, r.exprs), r.rest[1..], was && r.clean);
          PostfixTaint(Call(e, r.exprs), r.rest[1..], r.clean);
        }
      }
    } else if Next(ts, LBracket) {
      var r := Expression(ts[1..]);
      if r.Parsed? && Next(r.rest, RBracket) {
        PostfixTaint(Index(e, r.expr), r.rest[1..], was && r.clean);
        PostfixTaint(Index(e, r.expr), r.rest[1..], r.clean);
      }
    }
  }

  class Parser {
    var rest: seq<Token>
    var clean: bool

    constructor (tokens: seq<Token>)
      ensures rest == tokens && clean
    {
      rest, clean := tokens, true;
    }

    /** `match` of one kind. */
    method Match(k: Kind) returns (found: bool)
      modifies this
      ensures found == Next(old(rest), k) && clean == old(clean)
      ensures rest == if found then old(rest)[1..] else old(rest)
    {
      found := Next(rest, k);
      if found {
        rest := rest[1..];
      }
    }

    /** `match` of the operators of one level. */
    method MatchLevel(n: nat) returns (found: bool, op: Kind)
      modifies this
      ensures found == NextOp(old(rest), n) && clean == old(clean)
      ensures rest == if found then old(rest)[1..] else old(rest)
      ensures found ==> op == old(rest)[0].kind
    {
      found := NextOp(rest, n);
      op := Dot;
      if found {
        op := rest[0].kind;
        rest := rest[1..];
      }
    }

    method ParseExpression() returns (o: Outcome)
      modifies this
      ensures Answers(Expression(old(rest)), old(clean), o, rest, clean)
      decreases |rest|, 20
    {
      o := ParseLevel(0);
      if !o.Got? {
        return;
      }
      var target := o.expr;
      var found := Match(Equal);
      if found {
        o := ParseExpression();
        if !o.Got? {
          return;
        }
        if IsTarget(target) {
          return Got(Assign(target, o.expr));
        }
        clean := false;
      }
      o := Got(target);
    }

    method ParseLevel(n: nat) returns (o: Outcome)
      requires n <= UNARY
      modifies this
      ensures Answers(Level(n, old(rest)), old(clean), o, rest, clean)
      decreases |rest|, UNARY - n + 2
    {
      if n == UNARY {
        o := ParseUnary();
        return;
      }
      ghost var first := Level(n + 1, rest);
      o := ParseLevel(n + 1);
      if !o.Got? {
        return;
      }
      if n == RANGE || n == EXPONENT {
        EndTaint(o.expr, rest, first.clean);
        o := ParseEnd(n, o.expr);
      } else {
        LoopTaint(n, o.expr, rest, first.clean);
        o := ParseLoop(n, o.expr);
      }
    }

    /** The operator that is read at most once: `..` and `**`. */
    method ParseEnd(n: nat, left: Expr) returns (o: Outcome)
      requires n == RANGE || n == EXPONENT
      modifies this
      ensures Answers(if n == RANGE then RangeEnd(left, old(rest), true) else ExponentEnd(left, old(rest), true),
                      old(clean), o, rest, clean)
      decreases |rest|, 1
    {
      hide Level;
      var found, op := MatchLevel(n);
      if !found {
        return Got(left);
      }
      o := ParseLevel(if n == EXPONENT then n else n + 1);
      if o.Got? {
        o := Got(Binary(left, op, o.expr));
      }
    }

    /** The loop of a level that associates to the left. */
    method ParseLoop(n: nat, left: Expr) returns (o: Outcome)
      requires n < UNARY
      modifies this
      ensures Answers(Loop(n, left, old(rest), true), old(clean), o, rest, clean)
      decreases |rest|, 1
    {
      hide Level;
      var e := left;
      LoopTaint(n, left, rest, clean);
      while true
        invariant |rest| <= |old(rest)|
        invariant Tainted(Loop(n, left, old(rest), true), old(clean)) == Loop(n, e, rest, clean)
        decreases |rest|
      {
        var found, op := MatchLevel(n);
        if !found {
          return Got(e);
        }
        var right := ParseLevel(n + 1);
        if !right.Got? {
          return right;
        }
        e := Binary(e, op, right.expr);
      }
    }

    method ParseUnary() returns (o: Outcome)
      modifies this
      ensures Answers(UnaryLevel(old(rest)), old(clean), o, rest, clean)
      decreases |rest|, 1
    {
      if NextPrefix(rest) {
        var op := rest[0].kind;
        rest := rest[1..];
        o := ParseUnary();
        if o.Got? {
          o := Got(Unary(op, o.expr));
        }
      } else {
        o := ParsePrimary();
      }
    }

    method ParsePrimary() returns (o: Outcome)
      modifies this
      ensures Answers(Primary(old(rest)), old(clean), o, rest, clean)
      decreases |rest|, 0
    {
      hide Expression, Postfix, IsEnumName;
      if rest == [] {
        return Raised;
      }
      var t := rest[0];
      rest := rest[1..];
      if t.Constant? || t.Quoted? || t.Truth? || t.Symbol? {
        o := ParsePostfix(Literal(t));
      } else if t.Identifier? {
        if IsEnumName(t.text) || Next(rest, LBrace) || (Next(rest, LBracket) && LooksLikeType(rest[1..])) {
          return Skipped;
        }
        o := ParsePostfix(Variable(t));
      } else if t == Mark(LParen) {
        ghost var inner := Expression(rest);
        o := ParseExpression();
        if !o.Got? {
          return;
        }
        var closed := Match(RParen);
        if !closed {
          return Raised;
        }
        PostfixTaint(Grouping(o.expr), rest, inner.clean);
        o := ParsePostfix(Grouping(o.expr));
      } else if t == Mark(LBracket) || t == Mark(LBrace) || t.TypeName? || (t.Word? && Opens(t.word)) {
        return Skipped;
      } else {
        return Raised;
      }
    }

    /** Calls, fields and indices, as long as there are any. */
    method ParsePostfix(start: Expr) returns (o: Outcome)
      modifies this
      ensures Answers(Postfix(start, old(rest), true), old(clean), o, rest, clean)
      decreases |rest|, 0
    {
      hide Expression, P.Arguments;
      var e := start;
      PostfixTaint(start, rest, clean);
      while true
        invariant |rest| <= |old(rest)|
        invariant Tainted(Postfix(start, old(rest), true), old(clean)) == Postfix(e, rest, clean)
        decreases |rest|
      {
        var dot := Match(Dot);
        if dot {
          if rest == [] || !NamesField(rest[0]) {
            return Raised;
          }
          e := FieldAccess(e, rest[0]);
          rest := rest[1..];
        } else {
          var open := Match(LParen);
          if open {
            var exprs: seq<Expr> := [];
            if !Next(rest, RParen) {
              var arguments := ParseArguments();
              if arguments.Failed? {
                return arguments.outcome;
              }
              exprs := arguments.exprs;
            }
            var closed := Match(RParen);
            if !closed {
              return Raised;
            }
            e := Call(e, exprs);
          } else {
            var bracket := Match(LBracket);
            if !bracket {
              return Got(e);
            }
            var index := ParseExpression();
            if !index.Got? {
              return index;
            }
            var closed := Match(RBracket);
            if !closed {
              return Raised;
            }
            e := Index(e, index.expr);
          }
        }
      }
    }

    method ParseArguments() returns (a: Arguments)
      modifies this
      ensures match P.Arguments(old(rest))
              case ParsedList(es, r, c) => a == Listed(es) && rest == r && clean == (old(clean) && c)
              case ListThrown => a == Failed(Raised)
              case ListLeftOut => a == Failed(Skipped)
      decreases |rest|, 21
    {
      hide Expression;
      var exprs: seq<Expr> := [];
      ghost var all := P.Arguments(rest);
      assert all.ParsedList? ==> [] + all.exprs == all.exprs;
      while true
        invariant |rest| <= |old(rest)|
        invariant After([], old(clean), all) == After(exprs, clean, P.Arguments(rest))
        decreases |rest|
      {
        ghost var before, was := exprs, clean;
        var o := ParseExpression();
        if !o.Got? {
          return Failed(o);
        }
        exprs := exprs + [o.expr];
        ghost var more := if Next(rest, Comma) then P.Arguments(rest[1..]) else ListThrown;
        var comma := Match(Comma);
        if !comma {
          return Listed(exprs);
        }
        if more.ParsedList? {
          ghost var c := clean;
          OneMore(before, was, o.expr, c, more);
        }
      }
    }
  }
}
