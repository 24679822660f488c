/** The tag-length-value form of policies: writing, and reading from a stream that may
    end early. */
module PolicyWire {
  import opened Bytes
  import opened Wrappers
  import opened AxionPolicy

  const HEADER: Byte := 0x01
  const TIER: Byte := 0x02
  const MAX_STACK: Byte := 0x03
  const MAX_INSTRUCTIONS: Byte := 0x04
  const MAX_RECURSION: Byte := 0x05
  const LOOP_HINT: Byte := 0x06
  const MATCH_GUARD: Byte := 0x07
  const SEGMENT_EVENT: Byte := 0x08
  const AXION_EVENT: Byte := 0x09
  const ALIGNMENT: Byte := 0x0A
  const MAX_REFLECTIONS: Byte := 0x0B
  const MAX_META_WRITES: Byte := 0x0C
  const TENSOR_HASHES: Byte := 0x0D
  const BYTECODE_HEADER: Byte := 0x10
  const END: Byte := 0xFF

  // ---------- writing

  function Flag(b: bool): Byte {
    if b then 1 else 0
  }

  function TextBytes(t: Text): seq<Byte> {
    U32Bytes(ToU32(|t|)) + Raw(t)
  }

  function QuotaBytes(tag: Byte, limit: Option<Int64>): seq<Byte> {
    match limit
    case Some(v) => [tag] + U64Bytes(ToU64(v))
    case None => []
  }

  function TextsBytes(texts: seq<Text>): seq<Byte> {
    if texts == [] then [] else TextBytes(texts[0]) + TextsBytes(texts[1..])
  }

  function HashesBytes(hashes: seq<Text>): seq<Byte> {
    if hashes == [] then [] else [TENSOR_HASHES] + (U32Bytes(ToU32(|hashes|)) + TextsBytes(hashes))
  }

  function LoopBytes(h: LoopHint): seq<Byte> {
    [LOOP_HINT] + (U32Bytes(ToU32(h.id)) + (TextBytes(h.file) + (U32Bytes(ToU32(h.line)) + (U32Bytes(ToU32(h.column))
    + ([Flag(h.annotated)] + (U32Bytes(ToU32(h.depth)) + ([Flag(h.infinite)]
    + U64Bytes(ToU64(if !h.infinite && h.bound.Some? then h.bound.value else 0)))))))))
  }

  function PayloadBytes(payload: Option<Text>): seq<Byte> {
    match payload
    case Some(t) => [1] + TextBytes(t)
    case None => [0]
  }

  function AddressBytes(addr: Option<Int64>): seq<Byte> {
    match addr
    case Some(a) => [1] + U64Bytes(ToU64(a))
    case None => [0]
  }

  function GuardBytes(g: MatchGuard): seq<Byte> {
    [MATCH_GUARD] + (TextBytes(g.enumName) + (TextBytes(g.variantName)
    + (PayloadBytes(g.payload) + TextBytes(g.result))))
  }

  function SegmentBytes(e: SegmentEvent): seq<Byte> {
    [SEGMENT_EVENT] + (TextBytes(e.segment) + (TextBytes(e.action)
    + AddressBytes(e.addr)))
  }

  function ReasonBytes(tag: Byte, reason: Text): seq<Byte> {
    [tag] + TextBytes(reason)
  }

  function LoopsBytes(loops: seq<LoopHint>): seq<Byte> {
    if loops == [] then [] else LoopBytes(loops[0]) + LoopsBytes(loops[1..])
  }

  function GuardsBytes(guards: seq<MatchGuard>): seq<Byte> {
    if guards == [] then [] else GuardBytes(guards[0]) + GuardsBytes(guards[1..])
  }

  function SegmentsBytes(events: seq<SegmentEvent>): seq<Byte> {
    if events == [] then [] else SegmentBytes(events[0]) + SegmentsBytes(events[1..])
  }

  function ReasonsBytes(tag: Byte, reasons: seq<Text>): seq<Byte> {
    if reasons == [] then [] else ReasonBytes(tag, reasons[0]) + ReasonsBytes(tag, reasons[1..])
  }

  function CodeBytes(code: seq<Byte>, symbols: seq<Text>): seq<Byte> {
    if code == [] then []
    else [BYTECODE_HEADER] + (U32Bytes(ToU32(|symbols|)) + (TextsBytes(symbols) + (U32Bytes(ToU32(|code|)) + code)))
  }

  /** What follows the quotas. */
  function SectionBytes(p: Policy): seq<Byte> {
    HashesBytes(p.tensorHashes)
    + (LoopsBytes(p.loops) + (GuardsBytes(p.matchGuards) + (SegmentsBytes(p.segmentEvents)
    + (ReasonsBytes(AXION_EVENT, p.axionEvents) + (ReasonsBytes(ALIGNMENT, p.alignments)
    + (CodeBytes(p.bytecode, p.symbols) + [END]))))))
  }

  /** `Policy::serialize`. */
  function Serialize(p: Policy): seq<Byte> {
    [HEADER] + (U32Bytes(1) + ([TIER] + (U32Bytes(ToU32(p.tier))
    + (QuotaBytes(MAX_STACK, p.maxStack) + (QuotaBytes(MAX_INSTRUCTIONS, p.maxInstructions)
    + (QuotaBytes(MAX_RECURSION, p.maxRecursion) + (QuotaBytes(MAX_REFLECTIONS, p.maxReflections)
    + (QuotaBytes(MAX_META_WRITES, p.maxMetaWrites) + SectionBytes(p)))))))))
  }

  // ---------- reading

  /** `get` on an exhausted stream yields the end marker, whose low byte is 255. */
  function GetByte(s: seq<Byte>): (r: (Byte, seq<Byte>))
    ensures |r.1| <= |s|
  {
    if s == [] then (255, []) else (s[0], s[1..])
  }

  function GetBytes(s: seq<Byte>, n: nat): (r: (seq<Byte>, seq<Byte>))
    ensures |r.0| == n && |r.1| <= |s|
    decreases n, s
  {
    if n == 0 then ([], s)
    else
      var (b, s1) := GetByte(s);
      var (bs, s2) := GetBytes(s1, n - 1);
      ([b] + bs, s2)
  }

  function GetU32(s: seq<Byte>): (r: (U32, seq<Byte>))
    ensures |r.1| <= |s|
  {
    var (b, rest) := GetBytes(s, 4);
    (ReadU32(b), rest)
  }

  function GetU64(s: seq<Byte>): (r: (U64, seq<Byte>))
    ensures |r.1| <= |s|
  {
    var (b, rest) := GetBytes(s, 8);
    (ReadU64(b), rest)
  }

  /** `read` into a buffer: what the stream still holds replaces its front. */
  function Fill(buffer: seq<Byte>, s: seq<Byte>): (r: (seq<Byte>, seq<Byte>))
    ensures |r.0| == |buffer| && |r.1| <= |s|
  {
    if |buffer| <= |s| then (s[..|buffer|], s[|buffer|..]) else (s + buffer[|s|..], [])
  }

  function GetText(s: seq<Byte>): (r: (Text, seq<Byte>))
    ensures |r.1| <= |s|
  {
    var (n, s1) := GetU32(s);
    var (b, s2) := Fill(seq(n, _ => 0), s1);
    (Cooked(b), s2)
  }

  function GetTexts(s: seq<Byte>, n: nat): (r: (seq<Text>, seq<Byte>))
    ensures |r.1| <= |s|
    decreases n, s
  {
    if n == 0 then ([], s)
    else
      var (t, s1) := GetText(s);
      var (ts, s2) := GetTexts(s1, n - 1);
      ([t] + ts, s2)
  }

  function GetLoop(s: seq<Byte>): (r: (LoopHint, seq<Byte>))
    ensures |r.1| <= |s|
  {
    var (id, s1) := GetU32(s);
    var (file, s2) := GetText(s1);
    var (line, s3) := GetU32(s2);
    var (column, s4) := GetU32(s3);
    var (annotated, s5) := GetByte(s4);
    var (depth, s6) := GetU32(s5);
    var (infinite, s7) := GetByte(s6);
    var (bound, s8) := GetU64(s7);
    (LoopHint(ToInt32(id), file, ToInt32(line), ToInt32(column), annotated != 0, ToInt32(depth), infinite != 0,
              if infinite != 0 then None else Some(ToInt64(bound))), s8)
  }

  function GetGuard(s: seq<Byte>): (r: (MatchGuard, seq<Byte>))
    ensures |r.1| <= |s|
  {
    var (enumName, s1) := GetText(s);
    var (variantName, s2) := GetText(s1);
    var (flag, s3) := GetByte(s2);
    if flag != 0 then
      var (payload, s4) := GetText(s3);
      var (result, s5) := GetText(s4);
      (MatchGuard(enumName, variantName, Some(payload), result), s5)
    else
      var (result, s4) := GetText(s3);
      (MatchGuard(enumName, variantName, None, result), s4)
  }

  function GetSegment(s: seq<Byte>): (r: (SegmentEvent, seq<Byte>))
    ensures |r.1| <= |s|
  {
    var (segment, s1) := GetText(s);
    var (action, s2) := GetText(s1);
    var (flag, s3) := GetByte(s2);
    if flag != 0 then
      var (addr, s4) := GetU64(s3);
      (SegmentEvent(segment, action, Some(ToInt64(addr))), s4)
    else
      (SegmentEvent(segment, action, None), s3)
  }

  function Resize(b: seq<Byte>, n: nat): (r: seq<Byte>)
    ensures |r| == n
  {
    if n <= |b| then b[..n] else b + seq(n - |b|, _ => 0)
  }

  /** The symbol table and the byte code, the latter read over what was there. */
  function GetCode(previous: seq<Byte>, s: seq<Byte>): (r: (seq<Byte>, seq<Text>, seq<Byte>))
    ensures |r.2| <= |s|
  {
    var (n, s1) := GetU32(s);
    var (symbols, s2) := GetTexts(s1, n);
    var (size, s3) := GetU32(s2);
    var (code, rest) := Fill(Resize(previous, size), s3);
    (code, symbols, rest)
  }

  datatype Field = Field(policy: Policy, rest: seq<Byte>) | UnknownTag

  /** One field: the tag has been read, `s` is what follows it. */
  function GetField(p: Policy, tag: Byte, s: seq<Byte>): (r: Field)
    ensures r.Field? ==> |r.rest| <= |s|
  {
    if tag == HEADER then Field(p, GetU32(s).1)
    else if tag == TIER then var (v, rest) := GetU32(s); Field(p.(tier := ToInt32(v)), rest)
    else if tag == MAX_STACK then var (v, rest) := GetU64(s); Field(p.(maxStack := Some(ToInt64(v))), rest)
    else if tag == MAX_INSTRUCTIONS then
      var (v, rest) := GetU64(s); Field(p.(maxInstructions := Some(ToInt64(v))), rest)
    else if tag == MAX_RECURSION then var (v, rest) := GetU64(s); Field(p.(maxRecursion := Some(ToInt64(v))), rest)
    else if tag == MAX_REFLECTIONS then var (v, rest) := GetU64(s); Field(p.(maxReflections := Some(ToInt64(v))), rest)
    else if tag == MAX_META_WRITES then var (v, rest) := GetU64(s); Field(p.(maxMetaWrites := Some(ToInt64(v))), rest)
    else if tag == TENSOR_HASHES then
      var (n, s1) := GetU32(s);
      var (hashes, rest) := GetTexts(s1, n);
      Field(p.(tensorHashes := p.tensorHashes + hashes), rest)
    else if tag == LOOP_HINT then var (h, rest) := GetLoop(s); Field(p.(loops := p.loops + [h]), rest)
    else if tag == MATCH_GUARD then var (g, rest) := GetGuard(s); Field(p.(matchGuards := p.matchGuards + [g]), rest)
    else if tag == SEGMENT_EVENT then
      var (e, rest) := GetSegment(s); Field(p.(segmentEvents := p.segmentEvents + [e]), rest)
    else if tag == AXION_EVENT then var (r, rest) := GetText(s); Field(p.(axionEvents := p.axionEvents + [r]), rest)
    else if tag == ALIGNMENT then var (r, rest) := GetText(s); Field(p.(alignments := p.alignments + [r]), rest)
    else if tag == BYTECODE_HEADER then
      var (code, symbols, rest) := GetCode(p.bytecode, s);
      Field(p.(symbols := symbols, bytecode := code), rest)
    else UnknownTag
  }

  datatype WireError = UnknownPolicyTag

  /** The fields still in the stream, added to `p`. */
  function ReadFields(p: Policy, s: seq<Byte>): Result<Policy, WireError>
    decreases |s|
  {
    if s == [] || s[0] == END then Ok(p)
    else match GetField(p, s[0], s[1..])
      case UnknownTag => Err(UnknownPolicyTag)
      case Field(p', rest) => ReadFields(p', rest)
  }

  const EMPTY_POLICY :=
    Policy(1, None, None, None, None, None, None, None, None, None, None, [], [], [], [], [], [], [], [])

  /** `Policy::deserialize`. */
  function Deserialize(s: seq<Byte>): Result<Policy, WireError> {
    ReadFields(EMPTY_POLICY, s)
  }

  // ---------- reading undoes writing

  lemma {:induction false} GetBytesInverts(b: seq<Byte>, tail: seq<Byte>)
    ensures GetBytes(b + tail, |b|) == (b, tail)
    decreases |b|
  {
    if b == [] {
      assert b + tail == tail;
    } else {
      assert (b + tail)[1..] == b[1..] + tail;
      GetBytesInverts(b[1..], tail);
      assert [b[0]] + b[1..] == b;
    }
  }

  lemma GetU32Inverts(v: U32, tail: seq<Byte>)
    ensures GetU32(U32Bytes(v) + tail) == (v, tail)
  {
    hide U32Bytes, ReadU32, GetBytes;
    GetBytesInverts(U32Bytes(v), tail);
    ReadU32Inverts(v, []);
    assert U32Bytes(v) + [] == U32Bytes(v);
  }

  lemma GetU64Inverts(v: U64, tail: seq<Byte>)
    ensures GetU64(U64Bytes(v) + tail) == (v, tail)
  {
    hide U64Bytes, ReadU64, GetBytes;
    GetBytesInverts(U64Bytes(v), tail);
    ReadU64Inverts(v, []);
    assert U64Bytes(v) + [] == U64Bytes(v);
  }

  /** Lengths are written in four bytes. */
  predicate Short(t: Text) {
    |t| < U32_LIMIT
  }

  lemma GetTextInverts(t: Text, tail: seq<Byte>)
    requires Short(t)
    ensures GetText(TextBytes(t) + tail) == (t, tail)
  {
    hide U32Bytes, GetU32;
    assert TextBytes(t) + tail == U32Bytes(|t|) + (Raw(t) + tail);
    GetU32Inverts(|t|, Raw(t) + tail);
    assert (Raw(t) + tail)[..|t|] == Raw(t) && (Raw(t) + tail)[|t|..] == tail;
    CookedInvertsRaw(t);
  }

  lemma {:induction false} GetTextsInverts(texts: seq<Text>, tail: seq<Byte>)
    requires forall i :: 0 <= i < |texts| ==> Short(texts[i])
    ensures GetTexts(TextsBytes(texts) + tail, |texts|) == (texts, tail)
    decreases |texts|
  {
    hide TextBytes, GetText, Short;
    if texts == [] {
      assert TextsBytes(texts) + tail == tail;
    } else {
      var rest := texts[1..];
      assert TextsBytes(texts) + tail == TextBytes(texts[0]) + (TextsBytes(rest) + tail);
      GetTextInverts(texts[0], TextsBytes(rest) + tail);
      GetTextsInverts(rest, tail);
      assert [texts[0]] + rest == texts;
    }
  }

  /** What a loop hint keeps of its bound: an infinite hint keeps none, any other gets one. */
  function CanonicalLoop(h: LoopHint): LoopHint {
    h.(bound := if h.infinite then None else if h.bound.Some? then h.bound else Some(0))
  }

  lemma GetLoopInverts(h: LoopHint, tail: seq<Byte>)
    requires Short(h.file)
    ensures GetLoop((LoopBytes(h) + tail)[1..]) == (CanonicalLoop(h), tail)
  {
    hide U32Bytes, U64Bytes, TextBytes, GetU32, GetU64, GetText, ToU32, ToU64, ToInt32, ToInt64;
    var bound: Int64 := if !h.infinite && h.bound.Some? then h.bound.value else 0;
    var s7 := U64Bytes(ToU64(bound)) + tail;
    var s6 := [Flag(h.infinite)] + s7;
    var s5 := U32Bytes(ToU32(h.depth)) + s6;
    var s4 := [Flag(h.annotated)] + s5;
    var s3 := U32Bytes(ToU32(h.column)) + s4;
    var s2 := U32Bytes(ToU32(h.line)) + s3;
    var s1 := TextBytes(h.file) + s2;
    assert (LoopBytes(h) + tail)[1..] == U32Bytes(ToU32(h.id)) + s1;
    GetU32Inverts(ToU32(h.id), s1);
    GetTextInverts(h.file, s2);
    GetU32Inverts(ToU32(h.line), s3);
    GetU32Inverts(ToU32(h.column), s4);
    assert s4[1..] == s5;
    GetU32Inverts(ToU32(h.depth), s6);
    assert s6[1..] == s7;
    GetU64Inverts(ToU64(bound), tail);
    CastsInvert(h.id, bound);
    CastsInvert(h.line, 0);
    CastsInvert(h.column, 0);
    CastsInvert(h.depth, 0);
  }

  lemma GetGuardInverts(g: MatchGuard, tail: seq<Byte>)
    requires Short(g.enumName) && Short(g.variantName) && Short(g.result) &&
             (g.payload.Some? ==> Short(g.payload.value))
    ensures GetGuard((GuardBytes(g) + tail)[1..]) == (g, tail)
  {
    hide TextBytes, GetText;
    var s4 := TextBytes(g.result) + tail;
    GetTextInverts(g.result, tail);
    match g.payload
    case Some(t) =>
      var s3 := [1] + (TextBytes(t) + s4);
      var s2 := TextBytes(g.variantName) + s3;
      assert (GuardBytes(g) + tail)[1..] == TextBytes(g.enumName) + s2;
      GetTextInverts(g.enumName, s2);
      GetTextInverts(g.variantName, s3);
      assert s3[1..] == TextBytes(t) + s4;
      GetTextInverts(t, s4);
    case None =>
      var s3 := [0] + s4;
      var s2 := TextBytes(g.variantName) + s3;
      assert (GuardBytes(g) + tail)[1..] == TextBytes(g.enumName) + s2;
      GetTextInverts(g.enumName, s2);
      GetTextInverts(g.variantName, s3);
      assert s3[1..] == s4;
  }

  lemma GetSegmentInverts(e: SegmentEvent, tail: seq<Byte>)
    requires Short(e.segment) && Short(e.action)
    ensures GetSegment((SegmentBytes(e) + tail)[1..]) == (e, tail)
  {
    hide TextBytes, GetText, U64Bytes, GetU64, ToU64, ToInt64;
    match e.addr
    case Some(a) =>
      var s3 := [1] + (U64Bytes(ToU64(a)) + tail);
      var s2 := TextBytes(e.action) + s3;
      assert (SegmentBytes(e) + tail)[1..] == TextBytes(e.segment) + s2;
      GetTextInverts(e.segment, s2);
      GetTextInverts(e.action, s3);
      assert s3[1..] == U64Bytes(ToU64(a)) + tail;
      GetU64Inverts(ToU64(a), tail);
      CastsInvert(0, a);
    case None =>
      var s3 := [0] + tail;
      var s2 := TextBytes(e.action) + s3;
      assert (SegmentBytes(e) + tail)[1..] == TextBytes(e.segment) + s2;
      GetTextInverts(e.segment, s2);
      GetTextInverts(e.action, s3);
      assert s3[1..] == tail;
  }

  // ---------- one field after another

  /** Reading a field whose bytes are `b` turns `p` into `q`. */
  predicate Reads(p: Policy, b: seq<Byte>, q: Policy, tail: seq<Byte>) {
    ReadFields(p, b + tail) == ReadFields(q, tail)
  }

  lemma FieldRead(p: Policy, b: seq<Byte>, q: Policy, tail: seq<Byte>)
    requires b != [] && b[0] != END
    requires GetField(p, b[0], (b + tail)[1..]) == Field(q, tail)
    ensures Reads(p, b, q, tail)
  {
    hide GetField;
    assert (b + tail)[0] == b[0];
  }

  lemma NothingRead(p: Policy, tail: seq<Byte>)
    ensures Reads(p, [], p, tail)
  {
    assert [] + tail == tail;
  }

  lemma HeaderRead(p: Policy, tail: seq<Byte>)
    ensures Reads(p, [HEADER] + U32Bytes(1), p, tail)
  {
    hide U32Bytes, GetU32;
    var b := [HEADER] + U32Bytes(1);
    assert (b + tail)[1..] == U32Bytes(1) + tail;
    GetU32Inverts(1, tail);
    FieldRead(p, b, p, tail);
  }

  lemma TierRead(p: Policy, tier: Int32, tail: seq<Byte>)
    ensures Reads(p, [TIER] + U32Bytes(ToU32(tier)), p.(tier := tier), tail)
  {
    hide U32Bytes, GetU32, ToU32, ToInt32;
    var b := [TIER] + U32Bytes(ToU32(tier));
    assert (b + tail)[1..] == U32Bytes(ToU32(tier)) + tail;
    GetU32Inverts(ToU32(tier), tail);
    CastsInvert(tier, 0);
    FieldRead(p, b, p.(tier := tier), tail);
  }

  /** A quota field, by its tag; an absent quota leaves the policy alone. */
  function WithQuota(p: Policy, tag: Byte, limit: Option<Int64>): Policy {
    if limit.None? then p
    else if tag == MAX_STACK then p.(maxStack := limit)
    else if tag == MAX_INSTRUCTIONS then p.(maxInstructions := limit)
    else if tag == MAX_RECURSION then p.(maxRecursion := limit)
    else if tag == MAX_REFLECTIONS then p.(maxReflections := limit)
    else p.(maxMetaWrites := limit)
  }

  lemma QuotaRead(p: Policy, tag: Byte, limit: Option<Int64>, tail: seq<Byte>)
    requires tag == MAX_STACK || tag == MAX_INSTRUCTIONS || tag == MAX_RECURSION
             || tag == MAX_REFLECTIONS || tag == MAX_META_WRITES
    ensures Reads(p, QuotaBytes(tag, limit), WithQuota(p, tag, limit), tail)
  {
    hide U64Bytes, GetU64, ToU64, ToInt64;
    match limit
    case None => NothingRead(p, tail);
    case Some(v) =>
      var b := [tag] + U64Bytes(ToU64(v));
      assert (b + tail)[1..] == U64Bytes(ToU64(v)) + tail;
      GetU64Inverts(ToU64(v), tail);
      CastsInvert(0, v);
      FieldRead(p, b, WithQuota(p, tag, limit), tail);
  }

  lemma HashesRead(p: Policy, hashes: seq<Text>, tail: seq<Byte>)
    requires |hashes| < U32_LIMIT && forall i :: 0 <= i < |hashes| ==> Short(hashes[i])
    ensures Reads(p, HashesBytes(hashes), p.(tensorHashes := p.tensorHashes + hashes), tail)
  {
    hide U32Bytes, GetU32, GetTexts, TextsBytes, Short;
    if hashes == [] {
      assert p.tensorHashes + hashes == p.tensorHashes;
      NothingRead(p, tail);
    } else {
      var b := HashesBytes(hashes);
      assert (b + tail)[1..] == U32Bytes(|hashes|) + (TextsBytes(hashes) + tail);
      GetU32Inverts(|hashes|, TextsBytes(hashes) + tail);
      GetTextsInverts(hashes, tail);
      FieldRead(p, b, p.(tensorHashes := p.tensorHashes + hashes), tail);
    }
  }

  lemma CodeRead(p: Policy, code: seq<Byte>, symbols: seq<Text>, tail: seq<Byte>)
    requires |code| < U32_LIMIT && |symbols| < U32_LIMIT && forall i :: 0 <= i < |symbols| ==> Short(symbols[i])
    ensures Reads(p, CodeBytes(code, symbols), if code == [] then p else p.(bytecode := code, symbols := symbols), tail)
  {
    hide GetCode, U32Bytes, TextsBytes, Short;
    if code == [] {
      NothingRead(p, tail);
    } else {
      GetCodeInverts(p.bytecode, code, symbols, tail);
      FieldRead(p, CodeBytes(code, symbols), p.(bytecode := code, symbols := symbols), tail);
    }
  }

  lemma GetCodeInverts(previous: seq<Byte>, code: seq<Byte>, symbols: seq<Text>, tail: seq<Byte>)
    requires code != []
    requires |code| < U32_LIMIT && |symbols| < U32_LIMIT && forall i :: 0 <= i < |symbols| ==> Short(symbols[i])
    ensures GetCode(previous, (CodeBytes(code, symbols) + tail)[1..]) == (code, symbols, tail)
  {
    hide U32Bytes, GetU32, GetTexts, TextsBytes, Short, ToU32, Resize, Fill, CodeBytes;
    var s2 := U32Bytes(|code|) + (code + tail);
    CodeAfterTag(code, symbols, tail);
    GetU32Inverts(|symbols|, TextsBytes(symbols) + s2);
    GetTextsInverts(symbols, s2);
    GetU32Inverts(|code|, code + tail);
    FillTakesAll(Resize(previous, |code|), code, tail);
  }

  lemma CodeAfterTag(code: seq<Byte>, symbols: seq<Text>, tail: seq<Byte>)
    requires code != [] && |code| < U32_LIMIT && |symbols| < U32_LIMIT
    ensures (CodeBytes(code, symbols) + tail)[1..]
         == U32Bytes(|symbols|) + (TextsBytes(symbols) + (U32Bytes(|code|) + (code + tail)))
  {
    hide U32Bytes, TextsBytes, ToU32;
    SmallCasts(|symbols|, |code|);
    AfterTag(BYTECODE_HEADER, U32Bytes(|symbols|), TextsBytes(symbols), U32Bytes(|code|), code, tail);
  }

  lemma AfterTag(x: Byte, a: seq<Byte>, b: seq<Byte>, c: seq<Byte>, d: seq<Byte>, t: seq<Byte>)
    ensures ([x] + (a + (b + (c + d))) + t)[1..] == a + (b + (c + (d + t)))
  {
    assert ([x] + (a + (b + (c + d))) + t)[1..] == (a + (b + (c + d))) + t;
    assert (a + (b + (c + d))) + t == a + ((b + (c + d)) + t);
    assert (b + (c + d)) + t == b + ((c + d) + t);
  }

  lemma FillTakesAll(buffer: seq<Byte>, code: seq<Byte>, tail: seq<Byte>)
    requires |buffer| == |code|
    ensures Fill(buffer, code + tail) == (code, tail)
  {
    assert (code + tail)[..|code|] == code && (code + tail)[|code|..] == tail;
  }

  lemma SmallCasts(m: nat, n: nat)
    requires m < U32_LIMIT && n < U32_LIMIT
    ensures ToU32(m) == m && ToU32(n) == n
  {
  }

  function CanonicalLoops(loops: seq<LoopHint>): seq<LoopHint> {
    seq(|loops|, i requires 0 <= i < |loops| => CanonicalLoop(loops[i]))
  }

  lemma LoopRead(p: Policy, h: LoopHint, tail: seq<Byte>)
    requires Short(h.file)
    ensures Reads(p, LoopBytes(h), p.(loops := p.loops + [CanonicalLoop(h)]), tail)
  {
    hide LoopBytes, GetLoop, CanonicalLoop, Short;
    LoopTagged(h);
    GetLoopInverts(h, tail);
    FieldRead(p, LoopBytes(h), p.(loops := p.loops + [CanonicalLoop(h)]), tail);
  }

  lemma {:induction false} LoopsRead(p: Policy, loops: seq<LoopHint>, tail: seq<Byte>)
    requires forall i :: 0 <= i < |loops| ==> Short(loops[i].file)
    ensures Reads(p, LoopsBytes(loops), p.(loops := p.loops + CanonicalLoops(loops)), tail)
    decreases |loops|
  {
    hide CanonicalLoop, Short, LoopBytes, ReadFields;
    if loops == [] {
      assert p.loops + CanonicalLoops(loops) == p.loops;
      NothingRead(p, tail);
    } else {
      var h, rest := loops[0], loops[1..];
      var after := LoopsBytes(rest) + tail;
      var q := p.(loops := p.loops + [CanonicalLoop(h)]);
      LoopRead(p, h, after);
      LoopsRead(q, rest, tail);
      assert LoopsBytes(loops) + tail == LoopBytes(h) + after;
      assert p.loops + CanonicalLoops(loops) == q.loops + CanonicalLoops(rest);
    }
  }

  lemma LoopTagged(h: LoopHint)
    ensures LoopBytes(h) != [] && LoopBytes(h)[0] == LOOP_HINT
  {
    hide U32Bytes, U64Bytes, TextBytes;
  }

  predicate ShortGuard(g: MatchGuard) {
    Short(g.enumName) && Short(g.variantName) && Short(g.result) && (g.payload.Some? ==> Short(g.payload.value))
  }

  lemma GuardRead(p: Policy, g: MatchGuard, tail: seq<Byte>)
    requires ShortGuard(g)
    ensures Reads(p, GuardBytes(g), p.(matchGuards := p.matchGuards + [g]), tail)
  {
    hide GuardBytes, GetGuard, ShortGuard;
    GuardTagged(g);
    ShortGuardInverts(g, tail);
    FieldRead(p, GuardBytes(g), p.(matchGuards := p.matchGuards + [g]), tail);
  }

  lemma {:induction false} GuardsRead(p: Policy, guards: seq<MatchGuard>, tail: seq<Byte>)
    requires forall i :: 0 <= i < |guards| ==> ShortGuard(guards[i])
    ensures Reads(p, GuardsBytes(guards), p.(matchGuards := p.matchGuards + guards), tail)
    decreases |guards|
  {
    hide ShortGuard, GuardBytes, ReadFields;
    if guards == [] {
      assert p.matchGuards + guards == p.matchGuards;
      NothingRead(p, tail);
    } else {
      var g, rest := guards[0], guards[1..];
      var after := GuardsBytes(rest) + tail;
      var q := p.(matchGuards := p.matchGuards + [g]);
      GuardRead(p, g, after);
      GuardsRead(q, rest, tail);
      assert GuardsBytes(guards) + tail == GuardBytes(g) + after;
      assert p.matchGuards + guards == q.matchGuards + rest;
    }
  }

  lemma ShortGuardInverts(g: MatchGuard, tail: seq<Byte>)
    requires ShortGuard(g)
    ensures GetGuard((GuardBytes(g) + tail)[1..]) == (g, tail)
  {
    GetGuardInverts(g, tail);
  }

  lemma GuardTagged(g: MatchGuard)
    ensures GuardBytes(g) != [] && GuardBytes(g)[0] == MATCH_GUARD
  {
    hide TextBytes;
  }

  predicate ShortSegment(e: SegmentEvent) {
    Short(e.segment) && Short(e.action)
  }

  lemma SegmentRead(p: Policy, e: SegmentEvent, tail: seq<Byte>)
    requires ShortSegment(e)
    ensures Reads(p, SegmentBytes(e), p.(segmentEvents := p.segmentEvents + [e]), tail)
  {
    hide SegmentBytes, GetSegment, ShortSegment;
    SegmentTagged(e);
    ShortSegmentInverts(e, tail);
    FieldRead(p, SegmentBytes(e), p.(segmentEvents := p.segmentEvents + [e]), tail);
  }

  lemma {:induction false} SegmentsRead(p: Policy, events: seq<SegmentEvent>, tail: seq<Byte>)
    requires forall i :: 0 <= i < |events| ==> ShortSegment(events[i])
    ensures Reads(p, SegmentsBytes(events), p.(segmentEvents := p.segmentEvents + events), tail)
    decreases |events|
  {
    hide ShortSegment, SegmentBytes, ReadFields;
    if events == [] {
      assert p.segmentEvents + events == p.segmentEvents;
      NothingRead(p, tail);
    } else {
      var e, rest := events[0], events[1..];
      var after := SegmentsBytes(rest) + tail;
      var q := p.(segmentEvents := p.segmentEvents + [e]);
      SegmentRead(p, e, after);
      SegmentsRead(q, rest, tail);
      assert SegmentsBytes(events) + tail == SegmentBytes(e) + after;
      assert p.segmentEvents + events == q.segmentEvents + rest;
    }
  }

  lemma ShortSegmentInverts(e: SegmentEvent, tail: seq<Byte>)
    requires ShortSegment(e)
    ensures GetSegment((SegmentBytes(e) + tail)[1..]) == (e, tail)
  {
    GetSegmentInverts(e, tail);
  }

  lemma SegmentTagged(e: SegmentEvent)
    ensures SegmentBytes(e) != [] && SegmentBytes(e)[0] == SEGMENT_EVENT
  {
    hide TextBytes, U64Bytes;
  }

  lemma {:induction false} EventsRead(p: Policy, reasons: seq<Text>, tail: seq<Byte>)
    requires forall i :: 0 <= i < |reasons| ==> Short(reasons[i])
    ensures Reads(p, ReasonsBytes(AXION_EVENT, reasons), p.(axionEvents := p.axionEvents + reasons), tail)
    decreases |reasons|
  {
    hide GetText, TextBytes, Short;
    if reasons == [] {
      assert p.axionEvents + reasons == p.axionEvents;
      NothingRead(p, tail);
    } else {
      var r, rest := reasons[0], reasons[1..];
      var b, after := ReasonBytes(AXION_EVENT, r), ReasonsBytes(AXION_EVENT, rest) + tail;
      assert (b + after)[1..] == TextBytes(r) + after;
      GetTextInverts(r, after);
      var q := p.(axionEvents := p.axionEvents + [r]);
      FieldRead(p, b, q, after);
      EventsRead(q, rest, tail);
      assert ReasonsBytes(AXION_EVENT, reasons) + tail == b + after;
      assert p.axionEvents + reasons == q.axionEvents + rest;
    }
  }

  lemma {:induction false} AlignmentsRead(p: Policy, reasons: seq<Text>, tail: seq<Byte>)
    requires forall i :: 0 <= i < |reasons| ==> Short(reasons[i])
    ensures Reads(p, ReasonsBytes(ALIGNMENT, reasons), p.(alignments := p.alignments + reasons), tail)
    decreases |reasons|
  {
    hide GetText, TextBytes, Short;
    if reasons == [] {
      assert p.alignments + reasons == p.alignments;
      NothingRead(p, tail);
    } else {
      var r, rest := reasons[0], reasons[1..];
      var b, after := ReasonBytes(ALIGNMENT, r), ReasonsBytes(ALIGNMENT, rest) + tail;
      assert (b + after)[1..] == TextBytes(r) + after;
      GetTextInverts(r, after);
      var q := p.(alignments := p.alignments + [r]);
      FieldRead(p, b, q, after);
      AlignmentsRead(q, rest, tail);
      assert ReasonsBytes(ALIGNMENT, reasons) + tail == b + after;
      assert p.alignments + reasons == q.alignments + rest;
    }
  }

  // ---------- the whole policy

  /** Every length fits the four bytes it is written in. */
  predicate Writable(p: Policy) {
    && |p.tensorHashes| < U32_LIMIT && |p.bytecode| < U32_LIMIT && |p.symbols| < U32_LIMIT
    && (forall i :: 0 <= i < |p.tensorHashes| ==> Short(p.tensorHashes[i]))
    && (forall i :: 0 <= i < |p.loops| ==> Short(p.loops[i].file))
    && (forall i :: 0 <= i < |p.matchGuards| ==> ShortGuard(p.matchGuards[i]))
    && (forall i :: 0 <= i < |p.segmentEvents| ==> ShortSegment(p.segmentEvents[i]))
    && (forall i :: 0 <= i < |p.axionEvents| ==> Short(p.axionEvents[i]))
    && (forall i :: 0 <= i < |p.alignments| ==> Short(p.alignments[i]))
    && (forall i :: 0 <= i < |p.symbols| ==> Short(p.symbols[i]))
  }

  /** What the wire carries of a policy. */
  function Canonical(p: Policy): Policy {
    p.(maxTensors := None, maxTensorElements := None, maxSymbolicNodes := None, maxSymbolicGraphs := None,
       maxInfiniteForms := None, loops := CanonicalLoops(p.loops),
       symbols := if p.bytecode == [] then [] else p.symbols)
  }

  lemma EndRead(p: Policy)
    ensures ReadFields(p, [END]) == Ok(p)
  {
  }

  /** Reading back what was written yields the canonical form, for every policy. */
  lemma DeserializeSerialize(p: Policy)
    requires Writable(p)
    ensures Deserialize(Serialize(p)) == Ok(Canonical(p))
  {
    hide ReadFields, U32Bytes, QuotaBytes, HashesBytes, LoopsBytes, GuardsBytes, SegmentsBytes, ReasonsBytes, CodeBytes;
    hide ToU32, ShortGuard, ShortSegment, Short, CanonicalLoops;
    var s11 := CodeBytes(p.bytecode, p.symbols) + [END];
    var s10 := ReasonsBytes(ALIGNMENT, p.alignments) + s11;
    var s9 := ReasonsBytes(AXION_EVENT, p.axionEvents) + s10;
    var s8 := SegmentsBytes(p.segmentEvents) + s9;
    var s7 := GuardsBytes(p.matchGuards) + s8;
    var s6 := LoopsBytes(p.loops) + s7;
    var s5 := HashesBytes(p.tensorHashes) + s6;
    var q4 := QuotaBytes(MAX_META_WRITES, p.maxMetaWrites) + s5;
    var q3 := QuotaBytes(MAX_REFLECTIONS, p.maxReflections) + q4;
    var q2 := QuotaBytes(MAX_RECURSION, p.maxRecursion) + q3;
    var q1 := QuotaBytes(MAX_INSTRUCTIONS, p.maxInstructions) + q2;
    var q0 := QuotaBytes(MAX_STACK, p.maxStack) + q1;
    var tier := [TIER] + U32Bytes(ToU32(p.tier));
    var header := [HEADER] + U32Bytes(1);
    assert Serialize(p) == header + (tier + q0);
    HeaderRead(EMPTY_POLICY, tier + q0);
    TierRead(EMPTY_POLICY, p.tier, q0);
    var p0 := EMPTY_POLICY.(tier := p.tier);
    QuotaRead(p0, MAX_STACK, p.maxStack, q1);
    var p1 := p0.(maxStack := p.maxStack);
    QuotaRead(p1, MAX_INSTRUCTIONS, p.maxInstructions, q2);
    var p2 := p1.(maxInstructions := p.maxInstructions);
    QuotaRead(p2, MAX_RECURSION, p.maxRecursion, q3);
    var p3 := p2.(maxRecursion := p.maxRecursion);
    QuotaRead(p3, MAX_REFLECTIONS, p.maxReflections, q4);
    var p4 := p3.(maxReflections := p.maxReflections);
    QuotaRead(p4, MAX_META_WRITES, p.maxMetaWrites, s5);
    var p5 := p4.(maxMetaWrites := p.maxMetaWrites);
    TailRead(p, p5);
  }

  lemma TailRead(p: Policy, p5: Policy)
    requires Writable(p)
    requires p5 == EMPTY_POLICY.(tier := p.tier, maxStack := p.maxStack, maxInstructions := p.maxInstructions,
                                 maxRecursion := p.maxRecursion, maxReflections := p.maxReflections,
                                 maxMetaWrites := p.maxMetaWrites)
    ensures ReadFields(p5, HashesBytes(p.tensorHashes) + (LoopsBytes(p.loops) + (GuardsBytes(p.matchGuards)
              + (SegmentsBytes(p.segmentEvents) + (ReasonsBytes(AXION_EVENT, p.axionEvents)
              + (ReasonsBytes(ALIGNMENT, p.alignments) + (CodeBytes(p.bytecode, p.symbols) + [END])))))))
         == Ok(Canonical(p))
  {
    hide ReadFields, HashesBytes, LoopsBytes, GuardsBytes, SegmentsBytes, ReasonsBytes, CodeBytes;
    hide ShortGuard, ShortSegment, Short, CanonicalLoops;
    var s11 := CodeBytes(p.bytecode, p.symbols) + [END];
    var s10 := ReasonsBytes(ALIGNMENT, p.alignments) + s11;
    var s9 := ReasonsBytes(AXION_EVENT, p.axionEvents) + s10;
    var s8 := SegmentsBytes(p.segmentEvents) + s9;
    var s7 := GuardsBytes(p.matchGuards) + s8;
    HashesRead(p5, p.tensorHashes, LoopsBytes(p.loops) + s7);
    assert [] + p.tensorHashes == p.tensorHashes;
    var p6 := p5.(tensorHashes := p.tensorHashes);
    LoopsRead(p6, p.loops, s7);
    assert [] + CanonicalLoops(p.loops) == CanonicalLoops(p.loops);
    var p7 := p6.(loops := CanonicalLoops(p.loops));
    GuardsRead(p7, p.matchGuards, s8);
    assert [] + p.matchGuards == p.matchGuards;
    var p8 := p7.(matchGuards := p.matchGuards);
    SegmentsRead(p8, p.segmentEvents, s9);
    assert [] + p.segmentEvents == p.segmentEvents;
    var p9 := p8.(segmentEvents := p.segmentEvents);
    EventsRead(p9, p.axionEvents, s10);
    assert [] + p.axionEvents == p.axionEvents;
    var p10 := p9.(axionEvents := p.axionEvents);
    AlignmentsRead(p10, p.alignments, s11);
    assert [] + p.alignments == p.alignments;
    var p11 := p10.(alignments := p.alignments);
    CodeRead(p11, p.bytecode, p.symbols, [END]);
    EndRead(Canonical(p));
  }

  /** Fields the wire has no tag for. */
  predicate CarriesAll(p: Policy) {
    && p.maxTensors.None? && p.maxTensorElements.None? && p.maxSymbolicNodes.None?
    && p.maxSymbolicGraphs.None? && p.maxInfiniteForms.None?
  }

  /** A policy survives the wire exactly when it uses no field without a tag, each of its
      loops has a bound exactly when it is not infinite, and it has no symbols without code. */
  lemma RoundTripIff(p: Policy)
    requires Writable(p)
    ensures Deserialize(Serialize(p)) == Ok(p)
       <==> && CarriesAll(p)
            && (forall i :: 0 <= i < |p.loops| ==> (p.loops[i].bound.Some? <==> !p.loops[i].infinite))
            && (p.bytecode == [] ==> p.symbols == [])
  {
    hide Deserialize, Serialize, Writable;
    DeserializeSerialize(p);
    var loops := CanonicalLoops(p.loops);
    if loops == p.loops {
      forall i | 0 <= i < |p.loops| ensures p.loops[i].bound.Some? <==> !p.loops[i].infinite {
        assert loops[i] == CanonicalLoop(p.loops[i]);
      }
    }
    if forall i :: 0 <= i < |p.loops| ==> (p.loops[i].bound.Some? <==> !p.loops[i].infinite) {
      assert loops == p.loops;
    }
  }
}
