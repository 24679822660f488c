/** The entries that the machine writes to the Axion log, and which clauses they satisfy. */
module AxionLog {
  import opened Bytes
  import opened Wrappers
  import opened AxionPolicy

  /** A name and a value, as they are printed into an entry. */
  datatype Field = Field(name: Text, value: Text)

  function Render(fields: seq<Field>): Text {
    if fields == [] then "" else " " + fields[0].name + "=" + fields[0].value + Render(fields[1..])
  }

  predicate Free(t: Text, c: ByteChar) {
    forall i :: 0 <= i < |t| ==> t[i] != c
  }

  /** No blank and no equality sign. */
  predicate Word(t: Text) {
    Free(t, ' ') && Free(t, '=')
  }

  predicate Words(fields: seq<Field>) {
    forall i :: 0 <= i < |fields| ==> fields[i].name != "" && Word(fields[i].name) && Word(fields[i].value)
  }

  predicate EndsWith(t: Text, end: Text) {
    |end| <= |t| && t[|t| - |end|..] == end
  }

  lemma Regrouped(h: Text, a: Text, b: Text, c: Text, d: Text, e: Text)
    ensures h + (a + b + c + d + e) == (h + a + b) + c + (d + e)
  {
  }

  lemma RenderUnfolds(fields: seq<Field>)
    requires fields != []
    ensures Render(fields) == " " + fields[0].name + "=" + fields[0].value + Render(fields[1..])
    ensures Render(fields)[0] == ' '
  {
  }

  /** The place of an equality sign that belongs to the first field. */
  lemma AtFirstSign(front: Text, name: Text, rest: Text, key: Text, x: Text, j: nat)
    requires Word(key) && j + |key| == |front| + 1 + |name|
    requires OccursAt(front + " " + name + "=" + rest, key + "=" + x, j)
    ensures EndsWith(name, key) && x <= rest
  {
    var t, needle := front + " " + name + "=" + rest, key + "=" + x;
    var q := |front| + 1 + |name|;
    assert key == needle[..|key|] == t[j..q];
    assert x == needle[|key| + 1..] == t[q + 1..q + 1 + |x|] == rest[..|x|];
    assert t[|front|] == ' ' && forall k :: j <= k < q ==> t[k] == key[k - j];
    assert |key| <= |name| ==> t[j..q] == name[|name| - |key|..];
  }

  lemma PrefixOfWord(x: Text, value: Text, rest: Text)
    requires Free(x, ' ') && x <= value + rest && (rest != "" ==> rest[0] == ' ')
    ensures x <= value
  {
    if |x| > |value| {
      NextLetter(x, value, rest);
    }
  }

  lemma NextLetter(x: Text, value: Text, rest: Text)
    requires |x| > |value| && x <= value + rest
    ensures rest != "" && x[|value|] == rest[0]
  {
    assert (value + rest)[|value|] == rest[0];
  }

  /** Before the first equality sign there is none. */
  lemma SignAfter(front: Text, rest: Text, needle: Text, at: nat, j: nat)
    requires Free(front, '=') && at < |needle| && needle[at] == '=' && OccursAt(front + "=" + rest, needle, j)
    ensures j + at >= |front|
  {
    var t := front + "=" + rest;
    assert needle[at] == t[j..j + |needle|][at] == t[j + at];
    assert forall k :: 0 <= k < |front| ==> t[k] == front[k];
  }

  /** Behind it a name without one begins behind it, too. */
  lemma BeginsAfter(front: Text, rest: Text, key: Text, x: Text, j: nat)
    requires Free(key, '=') && j + |key| > |front| && OccursAt(front + "=" + rest, key + "=" + x, j)
    ensures j > |front| && OccursAt(rest, key + "=" + x, j - |front| - 1)
  {
    var t, needle := front + "=" + rest, key + "=" + x;
    forall k | 0 <= k < |needle| ensures needle[k] == t[j + k] {
      assert t[j..j + |needle|][k] == t[j + k];
    }
    assert t[|front|] == '=' && forall k :: 0 <= k < |key| ==> needle[k] == key[k];
    if j > |front| {
      assert rest == t[|front| + 1..];
      assert rest[j - |front| - 1..][..|needle|] == t[j..j + |needle|];
    }
  }

  /** Where a field is found in an entry, it is one of its fields, or the end of its name, and
      the value asked for begins the value there is. */
  lemma {:induction false} FoundInFields(head: Text, fields: seq<Field>, key: Text, x: Text, j: nat) returns (i: nat)
    requires Free(head, '=') && Words(fields) && Word(key) && Word(x)
    requires OccursAt(head + Render(fields), key + "=" + x, j)
    ensures i < |fields| && EndsWith(fields[i].name, key) && x <= fields[i].value
    decreases |fields|
  {
    hide OccursAt, EndsWith, Render;
    var needle := key + "=" + x;
    if fields == [] {
      NoSign(head, needle, |key|, j);
    } else {
      var f, after := fields[0], Render(fields[1..]);
      var front, rest := head + " " + f.name, f.value + after;
      RenderUnfolds(fields);
      Regrouped(head, " ", f.name, "=", f.value, after);
      SignAfter(front, rest, needle, |key|, j);
      if j + |key| == |front| {
        AtFirstSign(head, f.name, rest, key, x, j);
        RenderBlank(fields[1..]);
        PrefixOfWord(x, f.value, after);
        i := 0;
      } else {
        BeginsAfter(front, rest, key, x, j);
        var k := FoundInFields(f.value, fields[1..], key, x, j - |front| - 1);
        i := k + 1;
      }
    }
  }

  lemma NoSign(head: Text, needle: Text, at: nat, j: nat)
    requires Free(head, '=') && at < |needle| && needle[at] == '='
    ensures !OccursAt(head + Render([]), needle, j)
  {
    assert head + Render([]) == head;
    assert j + |needle| <= |head| ==> head[j..j + |needle|][at] == head[j + at];
  }

  lemma RenderBlank(fields: seq<Field>)
    ensures Render(fields) != "" ==> Render(fields)[0] == ' '
  {
    if fields != [] {
      RenderUnfolds(fields);
    }
  }

  /** A field stands in the entry it is printed into. */
  lemma {:induction false} FieldPrinted(head: Text, fields: seq<Field>, i: nat, x: Text)
    requires i < |fields| && x <= fields[i].value
    ensures Contains(head + Render(fields), fields[i].name + "=" + x)
    decreases i
  {
    hide Contains, Render;
    var f, after := fields[0], Render(fields[1..]);
    var needle := fields[i].name + "=" + x;
    RenderUnfolds(fields);
    Regrouped(head, " ", f.name, "=", f.value, after);
    if i == 0 {
      var tail := f.value[|x|..] + after;
      assert head + Render(fields) == (head + " ") + needle + tail;
      ContainsPart(head + " ", needle, tail);
    } else {
      FieldPrinted(f.value, fields[1..], i - 1, x);
      var a, b := ContainedIsPart(f.value + after, needle);
      var before := head + " " + f.name + "=";
      assert head + Render(fields) == (before + a) + needle + b;
      ContainsPart(before + a, needle, b);
    }
  }

  // ---------- guards

  /** The entry of a test of an enum value: the names that the program knows of the enum and
      of the variant, the variant's payload, and the outcome. */
  datatype GuardEvent = GuardEvent(enumName: Option<Text>, variant: Option<Variant>, matches: bool)
  datatype Variant = Variant(name: Text, payload: Option<Text>)

  function Outcome(matches: bool): Text {
    if matches then "pass" else "fail"
  }

  function GuardFields(e: GuardEvent): seq<Field> {
    (match e.enumName case Some(n) => [Field("enum", n)] case None => [])
    + (match e.variant
       case Some(v) =>
         [Field("variant", v.name)] + (match v.payload case Some(p) => [Field("payload", p)] case None => [])
       case None => [])
    + [Field("match", Outcome(e.matches))]
  }

  function GuardEntry(e: GuardEvent): Text {
    "enum guard" + Render(GuardFields(e))
  }

  /** A field of that name has a value that begins with `x`. */
  predicate ValueBegins(fields: seq<Field>, key: Text, x: Text) {
    exists i :: 0 <= i < |fields| && fields[i].name == key && x <= fields[i].value
  }

  /** What the log search finds of a field, in an entry printed from words. */
  lemma FieldContainedIff(head: Text, fields: seq<Field>, key: Text, x: Text)
    requires Free(head, '=') && Words(fields) && Word(key) && Word(x)
    requires forall i :: 0 <= i < |fields| && EndsWith(fields[i].name, key) ==> fields[i].name == key
    ensures Contains(head + Render(fields), key + "=" + x) <==> ValueBegins(fields, key, x)
  {
    hide OccursAt, Render, EndsWith;
    var t, needle := head + Render(fields), key + "=" + x;
    if Contains(t, needle) {
      var j :| 0 <= j <= |t| && OccursAt(t, needle, j);
      var i := FoundInFields(head, fields, key, x, j);
    } else if ValueBegins(fields, key, x) {
      var i :| 0 <= i < |fields| && fields[i].name == key && x <= fields[i].value;
      FieldPrinted(head, fields, i, x);
    }
  }

  predicate Begins(x: Text, value: Option<Text>) {
    value.Some? && x <= value.value
  }

  lemma GuardFieldBegins(e: GuardEvent, x: Text)
    ensures ValueBegins(GuardFields(e), "enum", x) <==> Begins(x, e.enumName)
    ensures ValueBegins(GuardFields(e), "variant", x) <==> e.variant.Some? && x <= e.variant.value.name
    ensures ValueBegins(GuardFields(e), "payload", x) <==> e.variant.Some? && Begins(x, e.variant.value.payload)
    ensures ValueBegins(GuardFields(e), "match", x) <==> x <= Outcome(e.matches)
  {
    var fields := GuardFields(e);
    assert fields[|fields| - 1] == Field("match", Outcome(e.matches));
    if e.enumName.Some? {
      assert fields[0] == Field("enum", e.enumName.value);
    }
    if e.variant.Some? {
      var k := if e.enumName.Some? then 1 else 0;
      assert fields[k] == Field("variant", e.variant.value.name);
      if e.variant.value.payload.Some? {
        assert fields[k + 1] == Field("payload", e.variant.value.payload.value);
      }
    }
  }

  lemma NamesApart(name: Text, key: Text)
    requires name == "enum" || name == "variant" || name == "payload" || name == "match"
    requires key == "enum" || key == "variant" || key == "payload" || key == "match"
    ensures EndsWith(name, key) ==> name == key
  {
    assert EndsWith(name, key) ==> name[|name| - |key|..][|key| - 1] == name[|name| - 1];
  }

  lemma GuardFieldFound(e: GuardEvent, key: Text, x: Text)
    requires Words(GuardFields(e)) && Word(x)
    requires key == "enum" || key == "variant" || key == "payload" || key == "match"
    ensures Contains(GuardEntry(e), key + "=" + x) <==> ValueBegins(GuardFields(e), key, x)
  {
    hide Render, EndsWith, Contains;
    var fields := GuardFields(e);
    forall i | 0 <= i < |fields| && EndsWith(fields[i].name, key) ensures fields[i].name == key {
      NamesApart(fields[i].name, key);
    }
    FieldContainedIff("enum guard", fields, key, x);
  }

  /** A guard requirement is satisfied by the entry of exactly those tests whose names begin
      with the names it asks for, and whose outcome begins with the one it asks for. */
  lemma GuardSatisfiedIff(e: GuardEvent, g: MatchGuard)
    requires Words(GuardFields(e)) && Word(g.enumName) && Word(g.variantName) && Word(g.result)
    requires g.payload.Some? ==> Word(g.payload.value)
    ensures GuardIn(GuardEntry(e), g) <==>
              && (g.enumName != "" ==> Begins(g.enumName, e.enumName))
              && (g.variantName != "" ==> e.variant.Some? && g.variantName <= e.variant.value.name)
              && (g.payload.Some? ==> e.variant.Some? && Begins(g.payload.value, e.variant.value.payload))
              && g.result <= Outcome(e.matches)
  {
    hide Contains, Render, GuardFields, ValueBegins, Words, Word, Begins;
    assert "" + "enum guard" + Render(GuardFields(e)) == GuardEntry(e);
    ContainsPart("", "enum guard", Render(GuardFields(e)));
    GuardFieldBegins(e, g.enumName);
    GuardFieldBegins(e, g.variantName);
    GuardFieldBegins(e, g.result);
    GuardFieldFound(e, "enum", g.enumName);
    GuardFieldFound(e, "variant", g.variantName);
    GuardFieldFound(e, "match", g.result);
    assert "enum" + "=" == "enum=" && "variant" + "=" == "variant=" && "match" + "=" == "match=";
    if g.payload.Some? {
      GuardFieldBegins(e, g.payload.value);
      GuardFieldFound(e, "payload", g.payload.value);
      assert "payload" + "=" == "payload=";
    }
  }

  lemma GuardWords(e: GuardEvent)
    requires e.enumName.Some? ==> Word(e.enumName.value)
    requires e.variant.Some? ==> Word(e.variant.value.name)
    requires e.variant.Some? && e.variant.value.payload.Some? ==> Word(e.variant.value.payload.value)
    ensures Words(GuardFields(e))
  {
    hide Free, Word;
    GuardNamesAreWords();
  }

  lemma GuardNamesAreWords()
    ensures Word("enum") && Word("variant") && Word("payload") && Word("match") && Word("pass") && Word("fail")
  {
  }

  /** So the tests of enums and variants with longer names will do. */
  lemma LongerNamesSatisfy(enumName: Text, variant: Text, more: Text, rest: Text, payload: Option<Text>)
    requires Word(enumName + more) && Word(variant + rest) && Word(enumName) && Word(variant)
    requires payload.Some? ==> Word(payload.value)
    ensures var e := GuardEvent(Some(enumName + more), Some(Variant(variant + rest, payload)), true);
            GuardIn(GuardEntry(e), MatchGuard(enumName, variant, payload, "pass"))
  {
    hide GuardIn, GuardEntry, GuardFields, Words;
    var e := GuardEvent(Some(enumName + more), Some(Variant(variant + rest, payload)), true);
    GuardWords(e);
    GuardSatisfiedIff(e, MatchGuard(enumName, variant, payload, "pass"));
  }

  // ---------- segments

  predicate SegmentName(name: Text) {
    name == "segment" || name == "addr" || name == "size"
  }

  lemma SegmentNamesApart(name: Text, key: Text)
    requires SegmentName(name) && SegmentName(key)
    ensures EndsWith(name, key) ==> name == key
  {
    assert EndsWith(name, key) ==> name[|name| - |key|..][|key| - 1] == name[|name| - 1];
  }

  lemma SegmentNameIsWord(name: Text)
    requires SegmentName(name)
    ensures Word(name)
  {
  }

  lemma SegmentFieldFound(head: Text, fields: seq<Field>, key: Text, x: Text)
    requires Free(head, '=') && Words(fields) && Word(x) && SegmentName(key)
    requires forall i :: 0 <= i < |fields| ==> SegmentName(fields[i].name)
    ensures Contains(head + Render(fields), key + "=" + x) <==> ValueBegins(fields, key, x)
  {
    hide Render, EndsWith, Contains, Word, Words, Free, SegmentName, ValueBegins;
    SegmentNameIsWord(key);
    forall i | 0 <= i < |fields| && EndsWith(fields[i].name, key) ensures fields[i].name == key {
      SegmentNamesApart(fields[i].name, key);
    }
    FieldContainedIff(head, fields, key, x);
  }

  lemma DecimalIsWord(n: int)
    ensures Word(Decimal(n))
  {
    hide Decimal;
  }

  /** What a segment requirement looks for in an entry that names segment, address and size:
      the address need only begin with the digits asked for. */
  lemma SegmentSatisfiedIff(head: Text, fields: seq<Field>, r: SegmentEvent)
    requires Free(head, '=') && Words(fields) && Word(r.segment)
    requires forall i :: 0 <= i < |fields| ==> SegmentName(fields[i].name)
    ensures var entry := head + Render(fields);
            SegmentIn(entry, r) <==>
              && Contains(entry, r.action)
              && (r.segment == "" || ValueBegins(fields, "segment", r.segment)
                  || Contains(entry, " " + r.segment + " "))
              && (r.addr.Some? ==> ValueBegins(fields, "addr", Decimal(r.addr.value)))
  {
    hide Render, Contains, Decimal, ValueBegins, Word, Words;
    SegmentFieldFound(head, fields, "segment", r.segment);
    assert "segment" + "=" == "segment=" && "addr" + "=" == "addr=";
    if r.addr.Some? {
      DecimalIsWord(r.addr.value);
      SegmentFieldFound(head, fields, "addr", Decimal(r.addr.value));
    }
  }

  /** The entry of a memory access. */
  function AccessFields(addr: int, size: Option<nat>): seq<Field> {
    [Field("addr", Decimal(addr))] + (match size case Some(n) => [Field("size", Decimal(n))] case None => [])
  }

  function AccessEntry(action: Text, segment: Text, addr: int, size: Option<nat>): Text {
    action + " " + segment + Render(AccessFields(addr, size))
  }

  /** The entry of an access that a policy judged, with the reason it gave. */
  function JudgedFields(segment: Text, addr: int): seq<Field> {
    [Field("segment", segment), Field("addr", Decimal(addr))]
  }

  function JudgedEntry(action: Text, segment: Text, addr: int, reason: Text): Text {
    action + Render(JudgedFields(segment, addr)) + reason
  }

  /** An access satisfies the requirement that names its action, its segment and its address,
      or any address whose digits begin those of its own. */
  lemma AccessSatisfies(action: Text, segment: Text, addr: int, size: Option<nat>, asked: Int64)
    requires Decimal(asked) <= Decimal(addr)
    ensures SegmentIn(AccessEntry(action, segment, addr, size), SegmentEvent(segment, action, Some(asked)))
  {
    hide Contains, Render, Decimal;
    var fields := AccessFields(addr, size);
    var head, after := action + " " + segment, Render(fields);
    FieldPrinted(head, fields, 0, Decimal(asked));
    assert "addr" + "=" == "addr=";
    assert head + after == "" + action + (" " + segment + after);
    ContainsPart("", action, " " + segment + after);
    RenderBlank(fields);
    RenderUnfolds(fields);
    assert head + after == action + (" " + segment + " ") + after[1..];
    ContainsPart(action, " " + segment + " ", after[1..]);
  }

  /** So does the entry of a judged access, for segments that begin so, too. */
  lemma JudgedSatisfies(action: Text, segment: Text, addr: int, reason: Text, begins: Text, asked: Int64)
    requires begins <= segment && Decimal(asked) <= Decimal(addr)
    ensures SegmentIn(JudgedEntry(action, segment, addr, reason), SegmentEvent(begins, action, Some(asked)))
  {
    hide Contains, Render, Decimal;
    var fields := JudgedFields(segment, addr);
    var entry := action + Render(fields);
    FieldPrinted(action, fields, 0, begins);
    FieldPrinted(action, fields, 1, Decimal(asked));
    assert "addr" + "=" == "addr=" && "segment" + "=" == "segment=";
    assert entry == "" + action + Render(fields);
    ContainsPart("", action, Render(fields));
    Longer(entry, reason, action);
    Longer(entry, reason, "segment=" + begins);
    Longer(entry, reason, "addr=" + Decimal(asked));
  }

  lemma Longer(entry: Text, more: Text, needle: Text)
    requires Contains(entry, needle)
    ensures Contains(entry + more, needle)
  {
    hide Contains;
    var a, b := ContainedIsPart(entry, needle);
    assert entry + more == a + needle + (b + more);
    ContainsPart(a, needle, b + more);
  }

  /** A requirement for one address is met at ten times that address, and up to nine beyond. */
  lemma TenfoldAddressSatisfies(action: Text, segment: Text, asked: Int64, digit: nat, size: Option<nat>)
    requires asked > 0 && digit < 10
    ensures var entry := AccessEntry(action, segment, 10 * asked + digit, size);
            SegmentIn(entry, SegmentEvent(segment, action, Some(asked)))
  {
    assert (10 * asked + digit) / 10 == asked;
    AccessSatisfies(action, segment, 10 * asked + digit, size, asked);
  }

  // ---------- loops

  /** What is logged of a loop, when the policy that mentions it is loaded. */
  function LoopFields(loop: LoopHint): seq<Field> {
    [ Field("file", loop.file), Field("line", Decimal(loop.line)), Field("column", Decimal(loop.column)),
      Field("bound", if loop.infinite then "infinite"
                     else match loop.bound case Some(b) => Decimal(b) case None => "unknown") ]
  }

  function LoopEntry(loop: LoopHint): Text {
    "loop hint" + Render(LoopFields(loop))
  }

  lemma RenderRight(fields: seq<Field>, tag: Text)
    requires fields != [] && tag == " " + fields[0].name + "="
    ensures Render(fields) == tag + (fields[0].value + Render(fields[1..]))
  {
    RenderUnfolds(fields);
  }

  /** It is the reason that the requirement waits for. */
  lemma LoopEntryExpected(loop: LoopHint)
    ensures LoopEntry(loop) == Expected(loop)
  {
    hide Decimal, Render, LoopFields;
    var f := LoopFields(loop);
    LoopFieldsAre(loop);
    RenderRight(f, " file=");
    RenderRight(f[1..], " line=");
    RenderRight(f[2..], " column=");
    RenderRight(f[3..], " bound=");
    assert f[1..][1..] == f[2..] && f[2..][1..] == f[3..] && f[3..][1..] == [];
    NothingRendered();
    assert f[3].value + "" == f[3].value;
    FirstLabel(f[0].value + Render(f[1..]));
  }

  lemma LoopFieldsAre(loop: LoopHint)
    ensures var f := LoopFields(loop);
            && |f| == 4 && f[0] == Field("file", loop.file) && f[1] == Field("line", Decimal(loop.line))
            && f[2] == Field("column", Decimal(loop.column)) && f[3] == Field("bound", BoundText(loop))
  {
    hide Decimal;
  }

  lemma NothingRendered()
    ensures Render([]) == ""
  {
  }

  lemma FirstLabel(t: Text)
    ensures "loop hint" + (" file=" + t) == "loop hint file=" + t
  {
    assert "loop hint" + " file=" == "loop hint file=";
    assert "loop hint" + (" file=" + t) == ("loop hint" + " file=") + t;
  }

  /** A requirement is satisfied by its entry inside any longer one. */
  lemma LoopSatisfied(loop: LoopHint, before: Text, after: Text)
    ensures Contains(before + LoopEntry(loop) + after, Expected(loop))
  {
    LoopEntryExpected(loop);
    ContainsPart(before, LoopEntry(loop), after);
  }

  /** The log of a machine that has loaded a policy. */
  function LoadLog(p: Policy): seq<Text> {
    seq(|p.loops|, i requires 0 <= i < |p.loops| => LoopEntry(p.loops[i]))
  }

  /** The machine itself logs what the loop requirements wait for: after the load they deny
      nothing any more. */
  lemma LoopsNeverDeny(p: Policy, seen: seq<bool>, ctx: SyscallContext)
    requires LoadLog(p) <= ctx.trace && FlagsSound(p.loops, seen, ctx.trace)
    ensures EvaluateClauses(p, seen, ctx).0 == Deny <==>
              ExceedsQuota(p, ctx) || (ctx.next == HaltNext && MissesEvent(p, ctx.trace))
  {
    hide Expected, LoopEntry, ExceedsQuota, MissesEvent, EvaluateClauses, Contains;
    forall i | 0 <= i < |p.loops| ensures Logged(ctx.trace, Expected(p.loops[i])) {
      LoopEntryExpected(p.loops[i]);
      ContainsItself(Expected(p.loops[i]));
      assert ctx.trace[i] == LoadLog(p)[i] == Expected(p.loops[i]);
    }
    EvaluateMeaning(p, seen, ctx);
  }

  // ---------- alignment

  /** An alignment requirement is satisfied by an entry that has both words, in any order. */
  lemma AlignmentSatisfied(a: Text, b: Text, c: Text, reason: Text)
    ensures AlignmentIn(a + "alignment" + b + reason + c, reason)
    ensures AlignmentIn(a + reason + b + "alignment" + c, reason)
  {
    hide Contains;
    var x, y := a + "alignment" + b + reason + c, a + reason + b + "alignment" + c;
    ContainsPart(a + "alignment" + b, reason, c);
    ContainsPart(a + reason + b, "alignment", c);
    assert x == a + "alignment" + (b + reason + c) && y == a + reason + (b + "alignment" + c);
    ContainsPart(a, "alignment", b + reason + c);
    ContainsPart(a, reason, b + "alignment" + c);
  }
}
