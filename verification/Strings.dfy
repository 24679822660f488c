/** The string instructions: split, join and replace, on strings of any characters. */
module Strings {
  import opened Wrappers

  /** `t` stands in `s` at position `p`. */
  predicate At(s: string, t: string, p: nat) {
    p + |t| <= |s| && s[p..p + |t|] == t
  }

  /** `std::string::find`. */
  function Find(s: string, t: string, from: nat): (r: Option<nat>)
    requires from <= |s|
    ensures r.Some? ==> from <= r.value && At(s, t, r.value) && forall p :: from <= p < r.value ==> !At(s, t, p)
    ensures r.None? ==> forall p :: from <= p <= |s| ==> !At(s, t, p)
    decreases |s| - from
  {
    if At(s, t, from) then Some(from)
    else if from == |s| then None
    else Find(s, t, from + 1)
  }

  predicate Contains(s: string, t: string) {
    exists p :: 0 <= p <= |s| && At(s, t, p)
  }

  /** The parts of `s` from `start` on. */
  function Split(s: string, sep: string, start: nat): (parts: seq<string>)
    requires sep != "" && start <= |s|
    ensures parts != []
    decreases |s| - start
  {
    match Find(s, sep, start)
    case None => [s[start..]]
    case Some(pos) => [s[start..pos]] + Split(s, sep, pos + |sep|)
  }

  function Join(parts: seq<string>, sep: string): string {
    if parts == [] then "" else parts[0] + JoinRest(parts[1..], sep)
  }

  function JoinRest(parts: seq<string>, sep: string): string {
    if parts == [] then "" else sep + (parts[0] + JoinRest(parts[1..], sep))
  }

  /** `StrSplit`: an empty separator is a type fault. */
  function StrSplit(s: string, sep: string): Option<seq<string>> {
    if sep == "" then None else Some(Split(s, sep, 0))
  }

  /** `StrReplace`: an empty needle changes nothing. */
  function StrReplace(s: string, needle: string, r: string): string {
    if needle == "" then s else Join(Split(s, needle, 0), r)
  }

  lemma JoinCons(part: string, rest: seq<string>, sep: string)
    requires rest != []
    ensures Join([part] + rest, sep) == part + (sep + Join(rest, sep))
  {
    assert ([part] + rest)[1..] == rest;
  }

  lemma JoinOne(part: string, sep: string)
    ensures Join([part], sep) == part
  {
    assert [part][1..] == [];
  }

  /** Splitting loses nothing: joining the parts restores the text. */
  lemma {:induction false} JoinSplit(s: string, sep: string, start: nat)
    requires sep != "" && start <= |s|
    ensures Join(Split(s, sep, start), sep) == s[start..]
    decreases |s| - start
  {
    match Find(s, sep, start)
    case None => JoinOne(s[start..], sep);
    case Some(pos) =>
      var next := pos + |sep|;
      JoinSplit(s, sep, next);
      JoinCons(s[start..pos], Split(s, sep, next), sep);
      assert s[start..] == s[start..pos] + (s[pos..next] + s[next..]);
  }

  lemma SliceOfSlice(s: string, a: nat, b: nat, i: nat, j: nat)
    requires a <= b <= |s| && i <= j <= b - a
    ensures s[a..b][i..j] == s[a + i..a + j]
  {
    var l, r := s[a..b][i..j], s[a + i..a + j];
    assert |l| == |r| && forall k :: 0 <= k < |l| ==> l[k] == r[k];
  }

  /** What stands in a piece of `s` stands in `s`, as far as the piece goes. */
  lemma AtInside(s: string, a: nat, b: nat, t: string, p: nat)
    requires a <= b <= |s|
    ensures At(s[a..b], t, p) <==> a + p + |t| <= b && At(s, t, a + p)
  {
    if a + p + |t| <= b {
      SliceOfSlice(s, a, b, p, p + |t|);
    }
  }

  lemma NextPart(s: string, sep: string, start: nat)
    requires sep != "" && start <= |s|
    ensures Find(s, sep, start).None? ==> Split(s, sep, start) == [s[start..]]
    ensures Find(s, sep, start).Some? ==>
              var pos := Find(s, sep, start).value;
              && start <= pos <= pos + |sep| <= |s|
              && Split(s, sep, start) == [s[start..pos]] + Split(s, sep, pos + |sep|)
  {
  }

  /** No part contains the separator. */
  lemma {:induction false} PartsAreFree(s: string, sep: string, start: nat)
    requires sep != "" && start <= |s|
    ensures forall part :: part in Split(s, sep, start) ==> !Contains(part, sep)
    decreases |s| - start
  {
    var found := Find(s, sep, start);
    var end := if found.Some? then found.value else |s|;
    var first := s[start..end];
    forall p | 0 <= p <= |first| ensures !At(first, sep, p) {
      AtInside(s, start, end, sep, p);
      if start + p + |sep| <= end {
        assert !At(s, sep, start + p);
      }
    }
    assert !Contains(first, sep);
    if found.Some? {
      PartsAreFree(s, sep, end + |sep|);
      assert Split(s, sep, start) == [first] + Split(s, sep, end + |sep|);
    } else {
      assert s[start..] == first;
    }
  }

  /** What is found early enough does not depend on what comes after. */
  lemma FindInPrefix(part: string, sep: string, rest: string)
    requires sep != ""
    ensures Find(part + sep + rest, sep, 0) == Find(part + sep, sep, 0)
  {
    var s, t := part + sep + rest, part + sep;
    assert t == s[0..|t|];
    assert At(t, sep, |part|);
    var i, j := Find(s, sep, 0), Find(t, sep, 0);
    AtInside(s, 0, |t|, sep, |part|);
    AtInside(s, 0, |t|, sep, j.value);
    AtInside(s, 0, |t|, sep, i.value);
  }

  lemma {:induction false} SplitShifted(s: string, sep: string, start: nat)
    requires sep != "" && start <= |s|
    ensures Split(s, sep, start) == Split(s[start..], sep, 0)
  {
    Shift(s, sep, start, 0);
    assert s[start..][0..] == s[start..];
  }

  lemma {:induction false} Shift(s: string, sep: string, offset: nat, from: nat)
    requires sep != "" && offset + from <= |s|
    ensures Split(s, sep, offset + from) == Split(s[offset..], sep, from)
    decreases |s| - from
  {
    hide Find;
    var t := s[offset..];
    FindShifted(s, sep, offset, from);
    match Find(t, sep, from)
    case None => assert s[offset + from..] == t[from..];
    case Some(pos) =>
      assert s[offset + from..offset + pos] == t[from..pos];
      Shift(s, sep, offset, pos + |sep|);
  }

  lemma FindShifted(s: string, sep: string, offset: nat, from: nat)
    requires offset + from <= |s|
    ensures Find(s, sep, offset + from) ==
            (match Find(s[offset..], sep, from) case None => None case Some(p) => Some(offset + p))
  {
    var t := s[offset..];
    assert t == s[offset..|s|];
    var i, j := Find(s, sep, offset + from), Find(t, sep, from);
    if i.Some? {
      AtInside(s, offset, |s|, sep, i.value - offset);
    }
    if j.Some? {
      AtInside(s, offset, |s|, sep, j.value);
    }
    hide At, Find;
  }

  /** Parts that can be told apart again: followed by the separator, each is where the
      separator is first found, and the last holds none. */
  predicate Separable(parts: seq<string>, sep: string) {
    parts != [] ==>
      if |parts| == 1 then Find(parts[0], sep, 0).None?
      else Find(parts[0] + sep, sep, 0) == Some(|parts[0]|) && Separable(parts[1..], sep)
  }

  /** Splitting undoes joining exactly for separable parts.  Parts that merely do not
      contain the separator are not enough: "a" and "b" joined by "aa" split elsewhere. */
  lemma {:induction false} SplitJoinIff(parts: seq<string>, sep: string)
    requires sep != "" && parts != []
    ensures Split(Join(parts, sep), sep, 0) == parts <==> Separable(parts, sep)
    decreases |parts|
  {
    if |parts| == 1 {
      assert parts == [parts[0]];
      JoinOne(parts[0], sep);
      PartsAreFree(parts[0], sep, 0);
      if Find(parts[0], sep, 0).None? {
        assert parts[0][0..] == parts[0];
      } else {
        assert Contains(parts[0], sep);
        assert parts[0] in parts;
      }
    } else {
      var first, rest := parts[0], parts[1..];
      assert parts == [first] + rest;
      JoinCons(first, rest, sep);
      var tail := Join(rest, sep);
      Regroup(first, sep, tail);
      SplitJoined(first, sep, tail);
      SplitJoinIff(rest, sep);
    }
  }

  /** How a text splits that begins with a part and a separator. */
  lemma SplitJoined(first: string, sep: string, tail: string)
    requires sep != ""
    ensures var parts := Split(first + sep + tail, sep, 0);
            if Find(first + sep, sep, 0) == Some(|first|) then parts == [first] + Split(tail, sep, 0)
            else parts[0] != first
  {
    hide Split;
    var s := first + sep + tail;
    FindInPrefix(first, sep, tail);
    assert s == first + (sep + tail);
    NextPart(s, sep, 0);
    assert At(first + sep, sep, |first|);
    hide Find, At;
    var next := |first| + |sep|;
    assert s[next..] == tail;
    SplitShifted(s, sep, next);
    var pos := Find(s, sep, 0).value;
    if pos == |first| {
      assert s[0..pos] == first;
    } else {
      assert |s[0..pos]| == pos;
    }
  }

  /** The parts "a" and "b" do not contain "aa", and are not separable by it. */
  lemma FreePartsNotSeparable()
    ensures !Contains("a", "aa") && !Contains("b", "aa") && !Separable(["a", "b"], "aa")
  {
    assert "a" + "aa" == "aaa";
    assert At("aaa", "aa", 0);
  }

  // ---------- the instructions as they run

  lemma Regroup<T>(a: seq<T>, b: seq<T>, c: seq<T>)
    ensures a + (b + c) == a + b + c
  {
  }

  method SplitText(value: string, sep: string) returns (parts: Option<seq<string>>)
    ensures parts == StrSplit(value, sep)
  {
    if sep == "" {
      return None;
    }
    hide Find, At, Split;
    var collected: seq<string> := [];
    var start := 0;
    while true
      invariant start <= |value|
      invariant collected + Split(value, sep, start) == Split(value, sep, 0)
      decreases |value| - start
    {
      NextPart(value, sep, start);
      var pos := Find(value, sep, start);
      if pos.None? {
        return Some(collected + [value[start..]]);
      }
      Regroup(collected, [value[start..pos.value]], Split(value, sep, pos.value + |sep|));
      collected := collected + [value[start..pos.value]];
      start := pos.value + |sep|;
    }
  }

  method JoinTexts(parts: seq<string>, sep: string) returns (joined: string)
    ensures joined == Join(parts, sep)
  {
    joined := "";
    if parts != [] {
      joined := parts[0];
      for i := 1 to |parts|
        invariant joined + JoinRest(parts[i..], sep) == Join(parts, sep)
      {
        assert parts[i..][1..] == parts[i + 1..];
        ghost var rest := JoinRest(parts[i + 1..], sep);
        assert joined + (sep + (parts[i] + rest)) == joined + sep + parts[i] + rest;
        joined := joined + sep;
        joined := joined + parts[i];
      }
      assert parts[|parts|..] == [];
    }
  }

  /** One pass, without parts. */
  method ReplaceText(source: string, needle: string, replacement: string) returns (replaced: string)
    ensures replaced == StrReplace(source, needle, replacement)
  {
    if needle == "" {
      return source;
    }
    hide Find, At, Join, JoinRest, Split;
    replaced := "";
    var from := 0;
    ghost var whole := Join(Split(source, needle, 0), replacement);
    while true
      invariant from <= |source|
      invariant replaced + Join(Split(source, needle, from), replacement) == whole
      decreases |source| - from
    {
      NextPart(source, needle, from);
      var pos := Find(source, needle, from);
      if pos.None? {
        JoinOne(source[from..], replacement);
        replaced := replaced + source[from..];
        return;
      }
      var next := pos.value + |needle|;
      ghost var rest := Join(Split(source, needle, next), replacement);
      JoinCons(source[from..pos.value], Split(source, needle, next), replacement);
      Regroup(replaced, source[from..pos.value], replacement + rest);
      Regroup(replaced + source[from..pos.value], replacement, rest);
      replaced := replaced + source[from..pos.value];
      replaced := replaced + replacement;
      from := next;
    }
  }

  /** What the split instruction promises. */
  lemma StrSplitMeaning(s: string, sep: string)
    ensures StrSplit(s, sep).None? <==> sep == ""
    ensures sep != "" ==>
              var parts := StrSplit(s, sep).value;
              Join(parts, sep) == s && forall part :: part in parts ==> !Contains(part, sep)
  {
    if sep != "" {
      JoinSplit(s, sep, 0);
      PartsAreFree(s, sep, 0);
      assert s[0..] == s;
    }
  }

  /** Replacing the needle by itself changes nothing. */
  lemma ReplaceByItself(s: string, needle: string)
    ensures StrReplace(s, needle, needle) == s
  {
    if needle != "" {
      JoinSplit(s, needle, 0);
      assert s[0..] == s;
    }
  }
}
