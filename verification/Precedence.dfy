/** How expressions group: which operator takes the name between two, said of the operators
    themselves. */
module Precedence {
  import opened ExprParser
  import R = ExprRoundTrip

  /** Neighbouring rungs of the ladder, by their operators: the second binds tighter. */
  predicate Neighbours(loose: Kind, tight: Kind) {
    || (loose.PipePipe? && tight.AmpAmp?)
    || (loose.AmpAmp? && tight.Pipe?)
    || (loose.Pipe? && tight.Caret?)
    || (loose.Caret? && tight.Amp?)
    || (loose.Amp? && tight.Arrow?)
    || (loose.Arrow? && tight.DotDot?)
    || (loose.DotDot? && Equality(tight))
    || (Equality(loose) && Ordering(tight))
    || (Ordering(loose) && Shifting(tight))
    || (Shifting(loose) && Additive(tight))
    || (Additive(loose) && Multiplicative(tight))
    || (Multiplicative(loose) && tight.StarStar?)
  }

  predicate Equality(k: Kind) {
    k.BangEqual? || k.EqualEqual?
  }

  predicate Ordering(k: Kind) {
    k.Less? || k.LessEqual? || k.Greater? || k.GreaterEqual?
  }

  predicate Shifting(k: Kind) {
    k.LessLess? || k.GreaterGreater? || k.GreaterGreaterGreater?
  }

  predicate Additive(k: Kind) {
    k.Plus? || k.Minus?
  }

  predicate Multiplicative(k: Kind) {
    k.Star? || k.Slash? || k.Percent?
  }

  /** Operators of one rung that associate to the left. */
  predicate SameRung(k: Kind, l: Kind) {
    || (k == l && (k.PipePipe? || k.AmpAmp? || k.Pipe? || k.Caret? || k.Amp? || k.Arrow?))
    || (Equality(k) && Equality(l)) || (Ordering(k) && Ordering(l)) || (Shifting(k) && Shifting(l))
    || (Additive(k) && Additive(l)) || (Multiplicative(k) && Multiplicative(l))
  }

  /** A name that is no enum literal. */
  predicate Name(t: Token) {
    t.Identifier? && !IsEnumName(t.text)
  }

  lemma NameFits(t: Token)
    requires Name(t)
    ensures forall n :: Fits(n, Variable(t))
  {
    hide IsEnumName;
  }

  lemma BinaryFits(l: Expr, k: Kind, r: Expr)
    ensures var m := LevelOf(k);
            forall n :: Fits(n, Binary(l, k, r)) <==>
              && n <= m && 0 <= m
              && Fits(if m == RANGE || m == EXPONENT then m + 1 else m, l)
              && Fits(if m == EXPONENT then m else m + 1, r)
  {
  }

  lemma PrintBinary(l: Expr, k: Kind, r: Expr, tail: seq<Token>)
    ensures Print(Binary(l, k, r), tail) == Print(l, [Mark(k)] + Print(r, tail))
  {
  }

  lemma PrintName(t: Token, tail: seq<Token>)
    ensures Print(Variable(t), tail) == [t] + tail
  {
  }

  lemma PrintedChain(a: Token, k: Kind, b: Token, l: Kind, c: Token)
    ensures var ts := [a, Mark(k), b, Mark(l), c];
            && Print(Binary(Binary(Variable(a), k, Variable(b)), l, Variable(c)), []) == ts
            && Print(Binary(Variable(a), k, Binary(Variable(b), l, Variable(c))), []) == ts
  {
    hide Print;
    var x, y, z := Variable(a), Variable(b), Variable(c);
    var last := [Mark(l)] + ([c] + []);
    PrintName(c, []);
    PrintName(b, last);
    PrintName(a, [Mark(k)] + ([b] + last));
    PrintBinary(y, l, z, []);
    PrintBinary(x, k, Binary(y, l, z), []);
    PrintBinary(x, k, y, last);
    PrintBinary(Binary(x, k, y), l, z, []);
    FiveTokens(a, Mark(k), b, Mark(l), c);
  }

  lemma FiveTokens(a: Token, k: Token, b: Token, l: Token, c: Token)
    ensures [a] + ([k] + ([b] + ([l] + ([c] + [])))) == [a, k, b, l, c]
  {
    assert [c] + [] == [c];
    assert [l] + [c] == [l, c];
    assert [b] + [l, c] == [b, l, c];
    assert [k] + [b, l, c] == [k, b, l, c];
  }

  lemma NeighbourLevels(loose: Kind, tight: Kind)
    requires Neighbours(loose, tight)
    ensures 0 <= LevelOf(loose) && LevelOf(tight) == LevelOf(loose) + 1 <= EXPONENT
  {
    hide LevelOf, Equality, Ordering, Shifting, Additive, Multiplicative;
    RungLevels();
    GroupLevels(loose);
    GroupLevels(tight);
  }

  lemma RungLevels()
    ensures LevelOf(PipePipe) == 0 && LevelOf(AmpAmp) == 1 && LevelOf(Pipe) == 2 && LevelOf(Caret) == 3
    ensures LevelOf(Amp) == 4 && LevelOf(Arrow) == 5 && LevelOf(DotDot) == RANGE && LevelOf(StarStar) == EXPONENT
  {
  }

  lemma GroupLevels(k: Kind)
    ensures Equality(k) ==> LevelOf(k) == 7
    ensures Ordering(k) ==> LevelOf(k) == 8
    ensures Shifting(k) ==> LevelOf(k) == 9
    ensures Additive(k) ==> LevelOf(k) == 10
    ensures Multiplicative(k) ==> LevelOf(k) == 11
  {
  }

  /** Of two operators on neighbouring rungs the tighter one takes the name between them, on
      whichever side it stands. */
  lemma TighterBinds(a: Token, b: Token, c: Token, loose: Kind, tight: Kind)
    requires Name(a) && Name(b) && Name(c) && Neighbours(loose, tight)
    ensures var ts := [a, Mark(loose), b, Mark(tight), c];
            Expression(ts) == Parsed(Binary(Variable(a), loose, Binary(Variable(b), tight, Variable(c))), [], true)
    ensures var ts := [a, Mark(tight), b, Mark(loose), c];
            Expression(ts) == Parsed(Binary(Binary(Variable(a), tight, Variable(b)), loose, Variable(c)), [], true)
  {
    hide Print, Expression, Name, Neighbours, LevelOf, Fits;
    var x, y, z := Variable(a), Variable(b), Variable(c);
    NeighbourLevels(loose, tight);
    NameFits(a);
    NameFits(b);
    NameFits(c);
    BinaryFits(y, tight, z);
    BinaryFits(x, loose, Binary(y, tight, z));
    BinaryFits(x, tight, y);
    BinaryFits(Binary(x, tight, y), loose, z);
    PrintedChain(a, loose, b, tight, c);
    PrintedChain(a, tight, b, loose, c);
    R.ParsesIff([a, Mark(loose), b, Mark(tight), c], Binary(x, loose, Binary(y, tight, z)));
    R.ParsesIff([a, Mark(tight), b, Mark(loose), c], Binary(Binary(x, tight, y), loose, z));
  }

  lemma SameLevels(k: Kind, l: Kind)
    ensures SameRung(k, l) ==> LevelOf(k) == LevelOf(l) >= 0 && LevelOf(k) != RANGE && LevelOf(k) != EXPONENT
    ensures LevelOf(StarStar) == EXPONENT
  {
    hide LevelOf, Equality, Ordering, Shifting, Additive, Multiplicative;
    RungLevels();
    GroupLevels(k);
    GroupLevels(l);
  }

  /** On one rung the left operator takes it, but `**` associates to the right. */
  lemma RungAssociates(a: Token, b: Token, c: Token, k: Kind, l: Kind)
    requires Name(a) && Name(b) && Name(c)
    ensures var e := Binary(Binary(Variable(a), k, Variable(b)), l, Variable(c));
            SameRung(k, l) ==> Expression([a, Mark(k), b, Mark(l), c]) == Parsed(e, [], true)
    ensures var e := Binary(Variable(a), StarStar, Binary(Variable(b), StarStar, Variable(c)));
            Expression([a, Mark(StarStar), b, Mark(StarStar), c]) == Parsed(e, [], true)
  {
    hide Print, Expression, Name, SameRung, LevelOf, Fits;
    var x, y, z := Variable(a), Variable(b), Variable(c);
    SameLevels(k, l);
    NameFits(a);
    NameFits(b);
    NameFits(c);
    BinaryFits(x, k, y);
    BinaryFits(Binary(x, k, y), l, z);
    BinaryFits(y, StarStar, z);
    BinaryFits(x, StarStar, Binary(y, StarStar, z));
    PrintedChain(a, k, b, l, c);
    PrintedChain(a, StarStar, b, StarStar, c);
    R.ParsesIff([a, Mark(k), b, Mark(l), c], Binary(Binary(x, k, y), l, z));
    R.ParsesIff([a, Mark(StarStar), b, Mark(StarStar), c], Binary(x, StarStar, Binary(y, StarStar, z)));
  }

  /** A prefix operator binds tighter than `**`. */
  lemma PrefixBinds(a: Token, b: Token, k: Kind)
    requires Name(a) && Name(b) && (k.Bang? || k.Minus? || k.Tilde?)
    ensures Expression([Mark(k), a, Mark(StarStar), b]) ==
            Parsed(Binary(Unary(k, Variable(a)), StarStar, Variable(b)), [], true)
  {
    hide Print, Expression, Name, SameRung, LevelOf, Fits;
    var x, y := Variable(a), Variable(b);
    SameLevels(StarStar, StarStar);
    NameFits(a);
    NameFits(b);
    UnaryFits(k, x);
    BinaryFits(Unary(k, x), StarStar, y);
    PrintName(b, []);
    PrintName(a, [Mark(StarStar)] + ([b] + []));
    PrintUnary(k, x, [Mark(StarStar)] + ([b] + []));
    PrintBinary(Unary(k, x), StarStar, y, []);
    assert [Mark(k)] + ([a] + ([Mark(StarStar)] + ([b] + []))) == [Mark(k), a, Mark(StarStar), b];
    R.ParsesIff([Mark(k), a, Mark(StarStar), b], Binary(Unary(k, x), StarStar, y));
  }

  lemma UnaryFits(k: Kind, e: Expr)
    requires (k.Bang? || k.Minus? || k.Tilde?) && Fits(UNARY, e)
    ensures forall n :: n <= UNARY ==> Fits(n, Unary(k, e))
  {
  }

  lemma PrintUnary(k: Kind, e: Expr, tail: seq<Token>)
    ensures Print(Unary(k, e), tail) == [Mark(k)] + Print(e, tail)
  {
  }

  /** Assignment binds looser than `||`. */
  lemma AssignmentBinds(a: Token, b: Token, c: Token)
    requires Name(a) && Name(b) && Name(c)
    ensures Expression([a, Mark(Equal), b, Mark(PipePipe), c]) ==
            Parsed(Assign(Variable(a), Binary(Variable(b), PipePipe, Variable(c))), [], true)
  {
    hide Print, Expression, Name, SameRung, LevelOf, Fits;
    var x, y, z := Variable(a), Variable(b), Variable(c);
    NameFits(a);
    NameFits(b);
    NameFits(c);
    SameLevels(PipePipe, PipePipe);
    assert SameRung(PipePipe, PipePipe) by { PipesOnRung(); }
    BinaryFits(y, PipePipe, z);
    AssignFits(x, Binary(y, PipePipe, z));
    var last := [Mark(PipePipe)] + ([c] + []);
    PrintName(c, []);
    PrintName(b, last);
    PrintBinary(y, PipePipe, z, []);
    PrintName(a, [Mark(Equal)] + ([b] + last));
    PrintAssign(x, Binary(y, PipePipe, z));
    assert [a] + ([Mark(Equal)] + ([b] + last)) == [a, Mark(Equal), b, Mark(PipePipe), c];
    R.ParsesIff([a, Mark(Equal), b, Mark(PipePipe), c], Assign(x, Binary(y, PipePipe, z)));
  }

  lemma PipesOnRung()
    ensures SameRung(PipePipe, PipePipe)
  {
  }

  lemma AssignFits(target: Expr, value: Expr)
    requires target.Variable? && Fits(0, target) && Fits(-1, value)
    ensures Fits(-1, Assign(target, value))
  {
  }

  lemma PrintAssign(target: Expr, value: Expr)
    ensures Print(Assign(target, value), []) == Print(target, [Mark(Equal)] + Print(value, []))
  {
  }

  // ---------- what may begin, be assigned to, and name a field

  lemma {:induction false} LadderThrows(n: nat, ts: seq<Token>)
    requires n <= UNARY && UnaryLevel(ts) == Thrown
    ensures Level(n, ts) == Thrown
    decreases UNARY - n
  {
    if n < UNARY {
      LadderThrows(n + 1, ts);
    }
  }

  /** An operator begins an expression only if it is one of the three prefixes. */
  lemma OnlyThesePrefixes(k: Kind, rest: seq<Token>)
    requires !k.LParen? && !k.LBracket? && !k.LBrace?
    ensures Expression([Mark(k)] + rest) != Thrown ==> k.Bang? || k.Minus? || k.Tilde?
  {
    hide Level;
    var ts := [Mark(k)] + rest;
    if !k.Bang? && !k.Minus? && !k.Tilde? {
      assert Primary(ts) == Thrown;
      LadderThrows(0, ts);
    }
  }

  /** What stands before `=` is assigned to exactly when it is a name, an index or a field;
      anything else is read and an error reported. */
  lemma AssignableIff(e: Expr, v: Expr)
    requires Fits(0, e) && Fits(-1, v)
    ensures Expression(Print(e, [Mark(Equal)] + Print(v, []))) ==
              if e.Variable? || e.Index? || e.FieldAccess? then Parsed(Assign(e, v), [], true) else Parsed(e, [], false)
  {
    hide Print, Fits, Level;
    var rest := [Mark(Equal)] + Print(v, []);
    R.RoundLevel(0, e, rest);
    R.RoundExpression(v, []);
    assert rest[1..] == Print(v, []);
  }

  /** Reserved words that do not name a field. */
  predicate NoField(w: Reserved) {
    || w == KwRecurse || w == KwDistributed || w == KwInfinite || w == KwInfer || w == KwTrain
    || w == InfiniteLiteral || w == Stray
  }

  /** After a dot comes a name, a type name, a truth value, or any other reserved word. */
  lemma FieldsIff(a: Token, f: Token)
    requires Name(a)
    ensures Expression([a, Mark(Dot), f]) ==
              if f.Identifier? || f.TypeName? || f.Truth? || (f.Word? && !NoField(f.word))
              then Parsed(FieldAccess(Variable(a), f), [], true) else Thrown
  {
    hide Print, IsEnumName, Expression, Level;
    var ts, e := [a, Mark(Dot), f], FieldAccess(Variable(a), f);
    SegmentWords(f);
    if NamesField(f) {
      NameFits(a);
      assert Fits(-1, e);
      PrintName(a, [Mark(Dot)] + ([f] + []));
      PrintField(Variable(a), f);
      assert [a] + ([Mark(Dot)] + ([f] + [])) == ts;
      R.ParsesIff(ts, e);
    } else {
      FieldThrows(ts);
      LadderThrows(0, ts);
      LevelThrows(ts);
    }
  }

  lemma SegmentWords(f: Token)
    ensures NamesField(f) <==> f.Identifier? || f.TypeName? || f.Truth? || (f.Word? && !NoField(f.word))
  {
  }

  lemma PrintField(e: Expr, f: Token)
    ensures Print(FieldAccess(e, f), []) == Print(e, [Mark(Dot)] + ([f] + []))
  {
  }

  lemma FieldThrows(ts: seq<Token>)
    requires |ts| == 3 && Name(ts[0]) && ts[1] == Mark(Dot) && !NamesField(ts[2])
    ensures UnaryLevel(ts) == Thrown
  {
    hide IsEnumName, NamesField;
    assert Postfix(Variable(ts[0]), ts[1..], true) == Thrown;
  }

  lemma LevelThrows(ts: seq<Token>)
    requires Level(0, ts) == Thrown
    ensures Expression(ts) == Thrown
  {
  }

  lemma NameAlone(t: Token)
    requires Name(t)
    ensures Expression([t]) == Parsed(Variable(t), [], true)
  {
    hide Print, IsEnumName, Expression;
    NameFits(t);
    PrintName(t, []);
    assert [t] + [] == [t];
    R.ParsesIff([t], Variable(t));
  }

  lemma EnumAlone(text: string)
    requires IsEnumName(text)
    ensures Expression([Identifier(text)]) == LeftOut
  {
    hide IsEnumName, Level;
    assert UnaryLevel([Identifier(text)]) == LeftOut;
    R.Stops(0, [Identifier(text)]);
  }

  lemma {:induction false} DotsOfSum(s: string, t: string)
    ensures Dots(s + t) == Dots(s) + Dots(t)
    ensures DotAt(s + t) == if Dots(s) > 0 then DotAt(s) else |s| + DotAt(t)
    ensures Dots(s) == 0 ==> DotAt(s) == |s|
  {
    if s == [] {
      assert s + t == t;
    } else {
      assert (s + t)[1..] == s[1..] + t;
      DotsOfSum(s[1..], t);
    }
  }

  /** A name with a single dot, which begins with a capital and has one behind the dot, is an
      enum literal; every other name without a second dot is a variable. */
  lemma EnumLiteralIff(first: string, second: string)
    requires Dots(first) == 0 && Dots(second) == 0
    ensures var t := Identifier(first + "." + second);
            Expression([t]) == if first != "" && IsUpper(first[0]) && second != "" && IsUpper(second[0]) then LeftOut
                               else Parsed(Variable(t), [], true)
    ensures Expression([Identifier(first)]) == Parsed(Variable(Identifier(first)), [], true)
  {
    hide Expression;
    var rest := "." + second;
    DotsOfSum(first, rest);
    assert rest[1..] == second;
    assert first + "." + second == first + rest;
    if first != "" && IsUpper(first[0]) && second != "" && IsUpper(second[0]) {
      EnumAlone(first + rest);
    } else {
      NameAlone(Identifier(first + rest));
    }
    NameAlone(Identifier(first));
  }
}
