/** Policies on streams: the writer appends one section after the other, the reader takes
    one field after the other, both byte by byte. */
module PolicyStreams {
  import opened Bytes
  import opened Wrappers
  import opened AxionPolicy
  import opened PolicyWire

  lemma Shift(s: seq<Byte>, a: seq<Byte>, t: seq<Byte>)
    ensures s + (a + t) == (s + a) + t
  {
  }

  class Output {
    var bytes: seq<Byte>

    constructor ()
      ensures bytes == []
    {
      bytes := [];
    }

    method WriteU8(v: Byte)
      modifies this
      ensures bytes == old(bytes) + [v]
    {
      bytes := bytes + [v];
    }

    /** `n` bytes, least significant first. */
    method WriteLittle(v: nat, n: nat)
      modifies this
      ensures bytes == old(bytes) + Little(v, n)
    {
      var rest := v;
      for i := 0 to n
        invariant bytes + Little(rest, n - i) == old(bytes) + Little(v, n)
      {
        Shift(bytes, [rest % 256], Little(rest / 256, n - i - 1));
        WriteU8(rest % 256);
        rest := rest / 256;
      }
    }

    method WriteU32(v: U32)
      modifies this
      ensures bytes == old(bytes) + U32Bytes(v)
    {
      WriteLittle(v, 4);
    }

    method WriteU64(v: U64)
      modifies this
      ensures bytes == old(bytes) + U64Bytes(v)
    {
      WriteLittle(v, 8);
    }

    method WriteText(t: Text)
      modifies this
      ensures bytes == old(bytes) + TextBytes(t)
    {
      hide U32Bytes, Raw;
      Shift(bytes, U32Bytes(ToU32(|t|)), Raw(t));
      WriteU32(ToU32(|t|));
      bytes := bytes + Raw(t);
    }

    method WriteTexts(texts: seq<Text>)
      modifies this
      ensures bytes == old(bytes) + TextsBytes(texts)
    {
      hide TextBytes;
      for i := 0 to |texts|
        invariant bytes + TextsBytes(texts[i..]) == old(bytes) + TextsBytes(texts)
      {
        assert texts[i..][1..] == texts[i + 1..];
        Shift(bytes, TextBytes(texts[i]), TextsBytes(texts[i + 1..]));
        WriteText(texts[i]);
      }
    }

    method WriteQuota(tag: Byte, limit: Option<Int64>)
      modifies this
      ensures bytes == old(bytes) + QuotaBytes(tag, limit)
    {
      hide U64Bytes;
      if limit.Some? {
        WriteU8(tag);
        WriteU64(ToU64(limit.value));
      }
    }

    method WriteHashes(hashes: seq<Text>)
      modifies this
      ensures bytes == old(bytes) + HashesBytes(hashes)
    {
      hide U32Bytes, TextsBytes, ToU32;
      if hashes == [] {
        return;
      }
      ghost var t2 := TextsBytes(hashes);
      ghost var t1 := U32Bytes(ToU32(|hashes|)) + t2;
      ghost var t0 := [TENSOR_HASHES] + t1;
      Shift(bytes, [TENSOR_HASHES], t1);
      WriteU8(TENSOR_HASHES);
      Shift(bytes, U32Bytes(ToU32(|hashes|)), t2);
      WriteU32(ToU32(|hashes|));
      WriteTexts(hashes);
    }

    method WriteLoop(h: LoopHint)
      modifies this
      ensures bytes == old(bytes) + LoopBytes(h)
    {
      hide U32Bytes, U64Bytes, TextBytes, ToU32, ToU64;
      var bound := ToU64(if !h.infinite && h.bound.Some? then h.bound.value else 0);
      ghost var t8 := U64Bytes(bound);
      ghost var t7 := [Flag(h.infinite)] + t8;
      ghost var t6 := U32Bytes(ToU32(h.depth)) + t7;
      ghost var t5 := [Flag(h.annotated)] + t6;
      ghost var t4 := U32Bytes(ToU32(h.column)) + t5;
      ghost var t3 := U32Bytes(ToU32(h.line)) + t4;
      ghost var t2 := TextBytes(h.file) + t3;
      ghost var t1 := U32Bytes(ToU32(h.id)) + t2;
      ghost var t0 := [LOOP_HINT] + t1;
      Shift(bytes, [LOOP_HINT], t1);
      WriteU8(LOOP_HINT);
      Shift(bytes, U32Bytes(ToU32(h.id)), t2);
      WriteU32(ToU32(h.id));
      Shift(bytes, TextBytes(h.file), t3);
      WriteText(h.file);
      Shift(bytes, U32Bytes(ToU32(h.line)), t4);
      WriteU32(ToU32(h.line));
      Shift(bytes, U32Bytes(ToU32(h.column)), t5);
      WriteU32(ToU32(h.column));
      Shift(bytes, [Flag(h.annotated)], t6);
      WriteU8(Flag(h.annotated));
      Shift(bytes, U32Bytes(ToU32(h.depth)), t7);
      WriteU32(ToU32(h.depth));
      Shift(bytes, [Flag(h.infinite)], t8);
      WriteU8(Flag(h.infinite));
      WriteU64(bound);
    }

    method WritePayload(payload: Option<Text>)
      modifies this
      ensures bytes == old(bytes) + PayloadBytes(payload)
    {
      hide TextBytes;
      WriteU8(Flag(payload.Some?));
      if payload.Some? {
        WriteText(payload.value);
      }
    }

    method WriteGuard(g: MatchGuard)
      modifies this
      ensures bytes == old(bytes) + GuardBytes(g)
    {
      hide TextBytes;
      ghost var t4 := TextBytes(g.result);
      ghost var t3 := PayloadBytes(g.payload) + t4;
      ghost var t2 := TextBytes(g.variantName) + t3;
      ghost var t1 := TextBytes(g.enumName) + t2;
      ghost var t0 := [MATCH_GUARD] + t1;
      Shift(bytes, [MATCH_GUARD], t1);
      WriteU8(MATCH_GUARD);
      Shift(bytes, TextBytes(g.enumName), t2);
      WriteText(g.enumName);
      Shift(bytes, TextBytes(g.variantName), t3);
      WriteText(g.variantName);
      Shift(bytes, PayloadBytes(g.payload), t4);
      WritePayload(g.payload);
      WriteText(g.result);
    }

    method WriteAddress(addr: Option<Int64>)
      modifies this
      ensures bytes == old(bytes) + AddressBytes(addr)
    {
      hide U64Bytes, ToU64;
      WriteU8(Flag(addr.Some?));
      if addr.Some? {
        WriteU64(ToU64(addr.value));
      }
    }

    method WriteSegment(e: SegmentEvent)
      modifies this
      ensures bytes == old(bytes) + SegmentBytes(e)
    {
      hide TextBytes;
      ghost var t3 := AddressBytes(e.addr);
      ghost var t2 := TextBytes(e.action) + t3;
      ghost var t1 := TextBytes(e.segment) + t2;
      ghost var t0 := [SEGMENT_EVENT] + t1;
      Shift(bytes, [SEGMENT_EVENT], t1);
      WriteU8(SEGMENT_EVENT);
      Shift(bytes, TextBytes(e.segment), t2);
      WriteText(e.segment);
      Shift(bytes, TextBytes(e.action), t3);
      WriteText(e.action);
      WriteAddress(e.addr);
    }

    method WriteLoops(items: seq<LoopHint>)
      modifies this
      ensures bytes == old(bytes) + LoopsBytes(items)
    {
      hide LoopBytes;
      for i := 0 to |items|
        invariant bytes + LoopsBytes(items[i..]) == old(bytes) + LoopsBytes(items)
      {
        assert items[i..][1..] == items[i + 1..];
        Shift(bytes, LoopBytes(items[i]), LoopsBytes(items[i + 1..]));
        WriteLoop(items[i]);
      }
    }

    method WriteGuards(items: seq<MatchGuard>)
      modifies this
      ensures bytes == old(bytes) + GuardsBytes(items)
    {
      hide GuardBytes;
      for i := 0 to |items|
        invariant bytes + GuardsBytes(items[i..]) == old(bytes) + GuardsBytes(items)
      {
        assert items[i..][1..] == items[i + 1..];
        Shift(bytes, GuardBytes(items[i]), GuardsBytes(items[i + 1..]));
        WriteGuard(items[i]);
      }
    }

    method WriteSegments(items: seq<SegmentEvent>)
      modifies this
      ensures bytes == old(bytes) + SegmentsBytes(items)
    {
      hide SegmentBytes;
      for i := 0 to |items|
        invariant bytes + SegmentsBytes(items[i..]) == old(bytes) + SegmentsBytes(items)
      {
        assert items[i..][1..] == items[i + 1..];
        Shift(bytes, SegmentBytes(items[i]), SegmentsBytes(items[i + 1..]));
        WriteSegment(items[i]);
      }
    }

    method WriteReasons(tag: Byte, reasons: seq<Text>)
      modifies this
      ensures bytes == old(bytes) + ReasonsBytes(tag, reasons)
    {
      hide TextBytes;
      for i := 0 to |reasons|
        invariant bytes + ReasonsBytes(tag, reasons[i..]) == old(bytes) + ReasonsBytes(tag, reasons)
      {
        assert reasons[i..][1..] == reasons[i + 1..];
        Shift(bytes, ReasonBytes(tag, reasons[i]), ReasonsBytes(tag, reasons[i + 1..]));
        Shift(bytes, [tag], TextBytes(reasons[i]));
        WriteU8(tag);
        WriteText(reasons[i]);
      }
    }

    method WriteCode(code: seq<Byte>, symbols: seq<Text>)
      modifies this
      ensures bytes == old(bytes) + CodeBytes(code, symbols)
    {
      hide U32Bytes, TextsBytes, ToU32;
      if code == [] {
        return;
      }
      ghost var t4 := code;
      ghost var t3 := U32Bytes(ToU32(|code|)) + t4;
      ghost var t2 := TextsBytes(symbols) + t3;
      ghost var t1 := U32Bytes(ToU32(|symbols|)) + t2;
      ghost var t0 := [BYTECODE_HEADER] + t1;
      Shift(bytes, [BYTECODE_HEADER], t1);
      WriteU8(BYTECODE_HEADER);
      Shift(bytes, U32Bytes(ToU32(|symbols|)), t2);
      WriteU32(ToU32(|symbols|));
      Shift(bytes, TextsBytes(symbols), t3);
      WriteTexts(symbols);
      Shift(bytes, U32Bytes(ToU32(|code|)), t4);
      WriteU32(ToU32(|code|));
      bytes := bytes + code;
    }

    /** `Policy::serialize`: quotas, then the sections with loops of their own. */
    method WritePolicy(p: Policy)
      modifies this
      ensures bytes == old(bytes) + Serialize(p)
    {
      hide U32Bytes, ToU32, QuotaBytes, SectionBytes;
      ghost var t9 := SectionBytes(p);
      ghost var t8 := QuotaBytes(MAX_META_WRITES, p.maxMetaWrites) + t9;
      ghost var t7 := QuotaBytes(MAX_REFLECTIONS, p.maxReflections) + t8;
      ghost var t6 := QuotaBytes(MAX_RECURSION, p.maxRecursion) + t7;
      ghost var t5 := QuotaBytes(MAX_INSTRUCTIONS, p.maxInstructions) + t6;
      ghost var t4 := QuotaBytes(MAX_STACK, p.maxStack) + t5;
      ghost var t3 := U32Bytes(ToU32(p.tier)) + t4;
      ghost var t2 := [TIER] + t3;
      ghost var t1 := U32Bytes(1) + t2;
      ghost var t0 := [HEADER] + t1;
      Shift(bytes, [HEADER], t1);
      WriteU8(HEADER);
      Shift(bytes, U32Bytes(1), t2);
      WriteU32(1);
      Shift(bytes, [TIER], t3);
      WriteU8(TIER);
      Shift(bytes, U32Bytes(ToU32(p.tier)), t4);
      WriteU32(ToU32(p.tier));
      Shift(bytes, QuotaBytes(MAX_STACK, p.maxStack), t5);
      WriteQuota(MAX_STACK, p.maxStack);
      Shift(bytes, QuotaBytes(MAX_INSTRUCTIONS, p.maxInstructions), t6);
      WriteQuota(MAX_INSTRUCTIONS, p.maxInstructions);
      Shift(bytes, QuotaBytes(MAX_RECURSION, p.maxRecursion), t7);
      WriteQuota(MAX_RECURSION, p.maxRecursion);
      Shift(bytes, QuotaBytes(MAX_REFLECTIONS, p.maxReflections), t8);
      WriteQuota(MAX_REFLECTIONS, p.maxReflections);
      Shift(bytes, QuotaBytes(MAX_META_WRITES, p.maxMetaWrites), t9);
      WriteQuota(MAX_META_WRITES, p.maxMetaWrites);
      WriteSections(p);
    }

    method WriteSections(p: Policy)
      modifies this
      ensures bytes == old(bytes) + SectionBytes(p)
    {
      hide HashesBytes, LoopsBytes, GuardsBytes, SegmentsBytes, ReasonsBytes, CodeBytes;
      ghost var t7 := [END];
      ghost var t6 := CodeBytes(p.bytecode, p.symbols) + t7;
      ghost var t5 := ReasonsBytes(ALIGNMENT, p.alignments) + t6;
      ghost var t4 := ReasonsBytes(AXION_EVENT, p.axionEvents) + t5;
      ghost var t3 := SegmentsBytes(p.segmentEvents) + t4;
      ghost var t2 := GuardsBytes(p.matchGuards) + t3;
      ghost var t1 := LoopsBytes(p.loops) + t2;
      ghost var t0 := HashesBytes(p.tensorHashes) + t1;
      Shift(bytes, HashesBytes(p.tensorHashes), t1);
      WriteHashes(p.tensorHashes);
      Shift(bytes, LoopsBytes(p.loops), t2);
      WriteLoops(p.loops);
      Shift(bytes, GuardsBytes(p.matchGuards), t3);
      WriteGuards(p.matchGuards);
      Shift(bytes, SegmentsBytes(p.segmentEvents), t4);
      WriteSegments(p.segmentEvents);
      Shift(bytes, ReasonsBytes(AXION_EVENT, p.axionEvents), t5);
      WriteReasons(AXION_EVENT, p.axionEvents);
      Shift(bytes, ReasonsBytes(ALIGNMENT, p.alignments), t6);
      WriteReasons(ALIGNMENT, p.alignments);
      Shift(bytes, CodeBytes(p.bytecode, p.symbols), t7);
      WriteCode(p.bytecode, p.symbols);
      WriteU8(END);
    }
  }

  lemma {:induction false} UnlittleAppend(b: seq<Byte>, x: Byte)
    ensures Unlittle(b + [x]) == Unlittle(b) + Power256(|b|) * x
  {
    if b == [] {
      assert ([] + [x])[1..] == [];
    } else {
      UnlittleAppend(b[1..], x);
      assert (b + [x])[1..] == b[1..] + [x];
      assert Power256(|b|) * x == 256 * (Power256(|b[1..]|) * x);
    }
  }

  class Input {
    var rest: seq<Byte>

    constructor (bytes: seq<Byte>)
      ensures rest == bytes
    {
      rest := bytes;
    }

    /** `get`, also on an exhausted stream. */
    method ReadU8() returns (b: Byte)
      modifies this
      ensures (b, rest) == GetByte(old(rest))
    {
      if rest == [] {
        return 255;
      }
      b, rest := rest[0], rest[1..];
    }

    /** `n` bytes, least significant first, shifted into place one by one. */
    method ReadLittle(n: nat) returns (v: nat)
      modifies this
      ensures (Unlittle(GetBytes(old(rest), n).0), GetBytes(old(rest), n).1) == (v, rest)
    {
      v := 0;
      var place: nat := 1;
      ghost var taken: seq<Byte> := [];
      for i := 0 to n
        invariant |taken| == i && v == Unlittle(taken) && place == Power256(i)
        invariant GetBytes(old(rest), n).0 == taken + GetBytes(rest, n - i).0
        invariant GetBytes(old(rest), n).1 == GetBytes(rest, n - i).1
      {
        var b := ReadU8();
        UnlittleAppend(taken, b);
        Shift(taken, [b], GetBytes(rest, n - i - 1).0);
        v := v + place * b;
        place := 256 * place;
        taken := taken + [b];
      }
      assert taken + [] == taken;
    }

    method ReadU32() returns (v: U32)
      modifies this
      ensures (v, rest) == GetU32(old(rest))
    {
      ghost var b := GetBytes(rest, 4).0;
      UnlittleBound(b);
      Powers();
      assert b[..4] == b;
      var value := ReadLittle(4);
      v := value;
    }

    method ReadU64() returns (v: U64)
      modifies this
      ensures (v, rest) == GetU64(old(rest))
    {
      ghost var b := GetBytes(rest, 8).0;
      UnlittleBound(b);
      Powers();
      assert b[..8] == b;
      var value := ReadLittle(8);
      v := value;
    }

    method ReadText() returns (t: Text)
      modifies this
      ensures (t, rest) == GetText(old(rest))
    {
      hide GetU32, Fill;
      var n := ReadU32();
      var (b, after) := Fill(seq(n, _ => 0), rest);
      t, rest := Cooked(b), after;
    }

    method ReadTexts(n: nat) returns (texts: seq<Text>)
      modifies this
      ensures (texts, rest) == GetTexts(old(rest), n)
    {
      hide GetText;
      texts := [];
      for i := 0 to n
        invariant GetTexts(old(rest), n).0 == texts + GetTexts(rest, n - i).0
        invariant GetTexts(old(rest), n).1 == GetTexts(rest, n - i).1
      {
        var t := ReadText();
        assert texts + ([t] + GetTexts(rest, n - i - 1).0) == (texts + [t]) + GetTexts(rest, n - i - 1).0;
        texts := texts + [t];
      }
      assert texts + [] == texts;
    }

    method ReadLoop() returns (h: LoopHint)
      modifies this
      ensures (h, rest) == GetLoop(old(rest))
    {
      hide GetU32, GetU64, GetText, GetByte;
      var id := ReadU32();
      var file := ReadText();
      var line := ReadU32();
      var column := ReadU32();
      var annotated := ReadU8();
      var depth := ReadU32();
      var infinite := ReadU8();
      var bound := ReadU64();
      h := LoopHint(ToInt32(id), file, ToInt32(line), ToInt32(column), annotated != 0, ToInt32(depth), infinite != 0,
                    if infinite != 0 then None else Some(ToInt64(bound)));
    }

    method ReadGuard() returns (g: MatchGuard)
      modifies this
      ensures (g, rest) == GetGuard(old(rest))
    {
      hide GetText, GetByte;
      var enumName := ReadText();
      var variantName := ReadText();
      var flag := ReadU8();
      var payload := None;
      if flag != 0 {
        var t := ReadText();
        payload := Some(t);
      }
      var result := ReadText();
      g := MatchGuard(enumName, variantName, payload, result);
    }

    method ReadSegment() returns (e: SegmentEvent)
      modifies this
      ensures (e, rest) == GetSegment(old(rest))
    {
      hide GetText, GetByte, GetU64;
      var segment := ReadText();
      var action := ReadText();
      var flag := ReadU8();
      var addr := None;
      if flag != 0 {
        var a := ReadU64();
        addr := Some(ToInt64(a));
      }
      e := SegmentEvent(segment, action, addr);
    }

    /** The symbol table and the byte code, read over what was there. */
    method ReadCode(previous: seq<Byte>) returns (code: seq<Byte>, symbols: seq<Text>)
      modifies this
      ensures (code, symbols, rest) == GetCode(previous, old(rest))
    {
      hide GetU32, GetTexts, Fill, Resize;
      var n := ReadU32();
      symbols := ReadTexts(n);
      var size := ReadU32();
      var (filled, after) := Fill(Resize(previous, size), rest);
      code, rest := filled, after;
    }

    /** The switch over the tags; `known` is false for a tag that is none. */
    method ReadField(p: Policy, tag: Byte) returns (q: Policy, known: bool)
      modifies this
      ensures match GetField(p, tag, old(rest))
              case UnknownTag => !known
              case Field(policy, after) => known && q == policy && rest == after
    {
      hide GetU32, GetU64, GetTexts, GetText, GetLoop, GetGuard, GetSegment, GetCode;
      q, known := p, true;
      if tag == HEADER {
        var version := ReadU32();
      } else if tag == TIER {
        var v := ReadU32();
        q := p.(tier := ToInt32(v));
      } else if tag == TENSOR_HASHES {
        var n := ReadU32();
        var hashes := ReadTexts(n);
        q := p.(tensorHashes := p.tensorHashes + hashes);
      } else if tag == LOOP_HINT {
        var h := ReadLoop();
        q := p.(loops := p.loops + [h]);
      } else if tag == MATCH_GUARD {
        var g := ReadGuard();
        q := p.(matchGuards := p.matchGuards + [g]);
      } else if tag == SEGMENT_EVENT {
        var e := ReadSegment();
        q := p.(segmentEvents := p.segmentEvents + [e]);
      } else if tag == AXION_EVENT {
        var r := ReadText();
        q := p.(axionEvents := p.axionEvents + [r]);
      } else if tag == ALIGNMENT {
        var r := ReadText();
        q := p.(alignments := p.alignments + [r]);
      } else if tag == BYTECODE_HEADER {
        var code, symbols := ReadCode(p.bytecode);
        q := p.(symbols := symbols, bytecode := code);
      } else if tag == MAX_STACK {
        var v := ReadU64();
        q := p.(maxStack := Some(ToInt64(v)));
      } else if tag == MAX_INSTRUCTIONS {
        var v := ReadU64();
        q := p.(maxInstructions := Some(ToInt64(v)));
      } else if tag == MAX_RECURSION {
        var v := ReadU64();
        q := p.(maxRecursion := Some(ToInt64(v)));
      } else if tag == MAX_REFLECTIONS {
        var v := ReadU64();
        q := p.(maxReflections := Some(ToInt64(v)));
      } else if tag == MAX_META_WRITES {
        var v := ReadU64();
        q := p.(maxMetaWrites := Some(ToInt64(v)));
      } else {
        known := false;
      }
    }

    /** `Policy::deserialize`. */
    method ReadPolicy() returns (r: Result<Policy, WireError>)
      modifies this
      ensures r == Deserialize(old(rest))
    {
      hide GetField;
      var policy := EMPTY_POLICY;
      while rest != [] && rest[0] != END
        invariant ReadFields(policy, rest) == Deserialize(old(rest))
        decreases |rest|
      {
        var tag := ReadU8();
        var known;
        policy, known := ReadField(policy, tag);
        if !known {
          return Err(UnknownPolicyTag);
        }
      }
      return Ok(policy);
    }
  }
}
