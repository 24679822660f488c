/** The bytes of the wire form, number by number. */
module PolicyFormat {
  import opened Bytes
  import opened Wrappers
  import opened AxionPolicy
  import opened PolicyWire

  /** A policy that asks for nothing but a tier. */
  function Bare(tier: Int32): Policy {
    Policy(tier, None, None, None, None, None, None, None, None, None, None, [], [], [], [], [], [], [], [])
  }

  /** What every form begins with: version one and the tier. */
  function Opening(tier: Int32): seq<Byte> {
    [0x01, 1, 0, 0, 0, 0x02] + U32Bytes(ToU32(tier))
  }

  lemma VersionOne()
    ensures U32Bytes(1) == [1, 0, 0, 0]
  {
    assert Little(1, 4) == [1] + Little(0, 3);
    assert Little(0, 3) == [0] + Little(0, 2);
    assert Little(0, 2) == [0] + Little(0, 1);
    assert Little(0, 1) == [0];
  }

  lemma Opens(tier: Int32, rest: seq<Byte>)
    ensures [HEADER] + (U32Bytes(1) + ([TIER] + (U32Bytes(ToU32(tier)) + rest))) == Opening(tier) + rest
  {
    VersionOne();
    hide U32Bytes;
    var t := U32Bytes(ToU32(tier));
    assert [HEADER] + ([1, 0, 0, 0] + ([TIER] + (t + rest))) == ([HEADER] + [1, 0, 0, 0] + [TIER]) + t + rest;
    assert [HEADER] + [1, 0, 0, 0] + [TIER] == [0x01, 1, 0, 0, 0, 0x02];
  }

  lemma NoSections(p: Policy)
    requires p.tensorHashes == [] && p.loops == [] && p.matchGuards == [] && p.segmentEvents == []
    requires p.axionEvents == [] && p.alignments == [] && p.bytecode == []
    ensures SectionBytes(p) == [0xFF]
  {
  }

  /** The tags of the quotas. */
  lemma QuotaForms(tier: Int32, v: Int64)
    ensures var n, p := U64Bytes(ToU64(v)) + [0xFF], Bare(tier);
            && Serialize(p) == Opening(tier) + [0xFF]
            && Serialize(p.(maxStack := Some(v))) == Opening(tier) + ([0x03] + n)
            && Serialize(p.(maxInstructions := Some(v))) == Opening(tier) + ([0x04] + n)
            && Serialize(p.(maxRecursion := Some(v))) == Opening(tier) + ([0x05] + n)
            && Serialize(p.(maxReflections := Some(v))) == Opening(tier) + ([0x0B] + n)
            && Serialize(p.(maxMetaWrites := Some(v))) == Opening(tier) + ([0x0C] + n)
  {
    hide U32Bytes, U64Bytes, SectionBytes;
    var n, p := U64Bytes(ToU64(v)), Bare(tier);
    NoSections(p);
    NoSections(p.(maxStack := Some(v)));
    NoSections(p.(maxInstructions := Some(v)));
    NoSections(p.(maxRecursion := Some(v)));
    NoSections(p.(maxReflections := Some(v)));
    NoSections(p.(maxMetaWrites := Some(v)));
    Opens(tier, [0xFF]);
    Opens(tier, [0x03] + n + [0xFF]);
    Opens(tier, [0x04] + n + [0xFF]);
    Opens(tier, [0x05] + n + [0xFF]);
    Opens(tier, [0x0B] + n + [0xFF]);
    Opens(tier, [0x0C] + n + [0xFF]);
    forall tag: Byte ensures [tag] + (n + [0xFF]) == [tag] + n + [0xFF] {
    }
  }

  /** The tags of the other sections, and the flags in them. */
  lemma SectionForms(h: LoopHint, g: MatchGuard, e: SegmentEvent, hash: Text, reason: Text, code: seq<Byte>)
    requires code != []
    ensures LoopBytes(h)[0] == 0x06 && GuardBytes(g)[0] == 0x07 && SegmentBytes(e)[0] == 0x08
    ensures ReasonsBytes(AXION_EVENT, [reason])[0] == 0x09 && ReasonsBytes(ALIGNMENT, [reason])[0] == 0x0A
    ensures HashesBytes([hash])[0] == 0x0D && CodeBytes(code, [])[0] == 0x10
    ensures Flag(true) == 1 && Flag(false) == 0
  {
    hide TextBytes, U32Bytes, U64Bytes;
  }
}
