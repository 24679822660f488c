/** The words and kinds of tokens that the parser tells apart, said of what it does with them. */
module GrammarTables {
  import opened ExprParser
  import opened Grammar

  const START: State := State(0, 0)

  lemma TierAhead(ts: seq<Token>)
    requires |ts| == 5 && ts[0] == Mark(At) && ts[1] == Identifier("tier")
    ensures FunctionalAhead(ts, START) && !FunctionalAhead(ts, State(5, 0)) && !FunctionalAhead(ts, State(5, 1))
  {
  }

  /** A tier is a whole number from 1 to 5: another whole number is read with an error, and a
      number that is not whole throws. */
  lemma TierIff(text: string, whole: bool)
    ensures var ts := [Mark(At), Identifier("tier"), Mark(LParen), Constant(text, whole), Mark(RParen)];
            var r, n := FunctionAttributes(ts, START, false, false), Stoll(text);
            if whole then r == Done(State(5, if n.Some? && 1 <= n.value <= 5 then 0 else 1), true)
            else r == Threw(State(3, 1))
  {
    hide Stoll;
    var ts := [Mark(At), Identifier("tier"), Mark(LParen), Constant(text, whole), Mark(RParen)];
    TierAhead(ts);
    var r := FunctionAttribute(ts, START, false);
    if whole {
      assert r.s.pos == 5;
    }
  }

  /** The names of the attributes. */
  lemma AttributesIff(name: string)
    ensures var ts := [Mark(At), Identifier(name)];
            && (FunctionAttributes(ts, START, false, false) == Done(START, false) <==> name != "tier")
            && (StructuralAttributes(ts, START, false, false, false) == Done(START, false)
                <==> name != "schema" && name != "module")
  {
  }

  /** A type begins with a name, a type name or a quoted string; elsewhere an error is reported
      and nothing is read. */
  lemma TypeBeginsIff(t: Token)
    ensures TypeExpr([t], START) ==
              if t.Identifier? || t.TypeName? || t.Quoted? then Done(State(1, 0), false) else Done(State(0, 1), false)
  {
  }
}
