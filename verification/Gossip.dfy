/** Nodes that exchange messages: a logical clock, an inbox that is sorted and rid of
    duplicates when it is read, and messages stamped with the clock. */
module Gossip {
  import opened Bytes
  import opened Wrappers

  datatype Message = Message(payload: Int64, tag: Int32, tick: U64, sender: Text)

  datatype Node = Node(tick: U64, inbox: seq<Message>, outbox: seq<Message>)

  // ---------- the order of messages

  /** `std::string` comparison. */
  predicate TextLess(s: Text, t: Text) {
    if t == [] then false
    else if s == [] then true
    else s[0] < t[0] || (s[0] == t[0] && TextLess(s[1..], t[1..]))
  }

  /** Later ticks first, then by sender, tag and payload. */
  predicate Newer(a: Message, b: Message) {
    if a.tick != b.tick then a.tick > b.tick
    else if a.sender != b.sender then TextLess(a.sender, b.sender)
    else if a.tag != b.tag then a.tag < b.tag
    else a.payload < b.payload
  }

  lemma {:induction false} TextsOrdered(s: Text, t: Text)
    ensures !TextLess(s, s)
    ensures s != t ==> (TextLess(s, t) <==> !TextLess(t, s))
    decreases |s|
  {
    if s != [] {
      TextsOrdered(s[1..], if t == [] then [] else t[1..]);
      if t != [] && s[0] == t[0] && s[1..] == t[1..] {
        assert s == [s[0]] + s[1..];
        assert t == [t[0]] + t[1..];
      }
    }
  }

  /** The first letter that differs is smaller. */
  predicate LessAt(s: Text, t: Text, k: nat) {
    k < |s| && k < |t| && s[..k] == t[..k] && s[k] < t[k]
  }

  /** It is the order of dictionaries: a text precedes those it begins, and the first letter
      that differs decides. */
  lemma {:induction false} TextLessIff(s: Text, t: Text)
    ensures TextLess(s, t) <==> (s <= t && s != t) || exists k: nat :: LessAt(s, t, k)
    decreases |s|
  {
    if s == [] || t == [] {
    } else if s[0] == t[0] {
      TextLessIff(s[1..], t[1..]);
      assert s <= t && s != t <==> s[1..] <= t[1..] && s[1..] != t[1..] by {
        assert s == [s[0]] + s[1..] && t == [t[0]] + t[1..];
      }
      LessAtShifts(s, t);
    } else {
      assert LessAt(s, t, 0) <==> s[0] < t[0];
    }
  }

  lemma LessAtShifts(s: Text, t: Text)
    requires s != [] && t != [] && s[0] == t[0]
    ensures (exists k: nat :: LessAt(s, t, k)) <==> exists k: nat :: LessAt(s[1..], t[1..], k)
  {
    if k: nat :| LessAt(s, t, k) {
      assert s[1..][..k - 1] == s[..k][1..] && t[1..][..k - 1] == t[..k][1..];
      assert LessAt(s[1..], t[1..], k - 1);
    }
    if k: nat :| LessAt(s[1..], t[1..], k) {
      assert s[..k + 1] == [s[0]] + s[1..][..k] && t[..k + 1] == [t[0]] + t[1..][..k];
      assert LessAt(s, t, k + 1);
    }
  }

  lemma {:induction false} TextsChain(s: Text, t: Text, u: Text)
    requires TextLess(s, t) && TextLess(t, u)
    ensures TextLess(s, u)
    decreases |s|
  {
    if s != [] && s[0] == t[0] == u[0] {
      TextsChain(s[1..], t[1..], u[1..]);
    }
  }

  /** Of two different messages exactly one is newer. */
  lemma NewerTotal(a: Message, b: Message)
    ensures !Newer(a, a)
    ensures a != b ==> (Newer(a, b) <==> !Newer(b, a))
  {
    TextsOrdered(a.sender, b.sender);
  }

  lemma NewerChain(a: Message, b: Message, c: Message)
    requires Newer(a, b) && Newer(b, c)
    ensures Newer(a, c)
  {
    if a.sender != b.sender && b.sender != c.sender && a.tick == b.tick == c.tick {
      TextsChain(a.sender, b.sender, c.sender);
      TextsOrdered(a.sender, c.sender);
    }
  }

  // ---------- sorting and removing duplicates

  /** `std::stable_sort`, as insertion: before the first message that is not newer. */
  function Insert(m: Message, s: seq<Message>): (r: seq<Message>)
    ensures multiset(r) == multiset(s) + multiset{m}
  {
    if s == [] || !Newer(s[0], m) then [m] + s
    else
      assert s == [s[0]] + s[1..];
      [s[0]] + Insert(m, s[1..])
  }

  function Sort(s: seq<Message>): (r: seq<Message>)
    ensures multiset(r) == multiset(s)
  {
    if s == [] then []
    else
      assert s == [s[0]] + s[1..];
      Insert(s[0], Sort(s[1..]))
  }

  /** `std::unique` on equality of all fields. */
  function Unique(s: seq<Message>): (r: seq<Message>)
    ensures |r| <= |s| && (s != [] ==> r != [] && r[0] == s[0])
    ensures forall m :: m in r <==> m in s
  {
    if |s| <= 1 then s
    else
      assert s == [s[0]] + s[1..];
      if s[0] == s[1] then Unique(s[1..]) else [s[0]] + Unique(s[1..])
  }

  /** No message is newer than the one before it. */
  predicate Ordered(s: seq<Message>) {
    forall i, j :: 0 <= i < j < |s| ==> !Newer(s[j], s[i])
  }

  /** Each message is newer than the next: newest first, and none twice. */
  predicate NewestFirst(s: seq<Message>) {
    forall i, j :: 0 <= i < j < |s| ==> Newer(s[i], s[j])
  }

  lemma {:induction false} InsertOrders(m: Message, s: seq<Message>)
    requires Ordered(s)
    ensures Ordered(Insert(m, s))
    decreases |s|
  {
    hide Newer;
    var r := Insert(m, s);
    if s == [] {
    } else if !Newer(s[0], m) {
      forall j | 0 <= j < |s| ensures !Newer(s[j], m) {
        NewerTotal(s[0], m);
        if j > 0 {
          NewerTotal(s[0], s[j]);
          if Newer(s[j], m) && m != s[0] {
            NewerChain(s[j], m, s[0]);
          }
        }
      }
    } else {
      InsertOrders(m, s[1..]);
      NewerTotal(s[0], m);
      forall j | 0 < j < |r| ensures !Newer(r[j], s[0]) {
        assert r[j] in multiset(Insert(m, s[1..]));
        if r[j] != m {
          assert r[j] in s[1..];
        }
      }
      forall i, j | 0 <= i < j < |r| ensures !Newer(r[j], r[i]) {
        if i > 0 {
          assert r[i] == Insert(m, s[1..])[i - 1] && r[j] == Insert(m, s[1..])[j - 1];
        }
      }
    }
  }

  lemma {:induction false} SortOrders(s: seq<Message>)
    ensures Ordered(Sort(s))
  {
    if s != [] {
      SortOrders(s[1..]);
      InsertOrders(s[0], Sort(s[1..]));
    }
  }

  lemma {:induction false} UniqueStrict(s: seq<Message>)
    requires Ordered(s)
    ensures NewestFirst(Unique(s))
    decreases |s|
  {
    hide Newer;
    if |s| > 1 {
      UniqueStrict(s[1..]);
      if s[0] != s[1] {
        var rest := Unique(s[1..]);
        forall j | 0 <= j < |rest| ensures Newer(s[0], rest[j]) {
          assert rest[j] in s[1..];
          var k :| 1 <= k < |s| && s[k] == rest[j];
          NewerTotal(s[0], s[1]);
          if k > 1 {
            NewerTotal(s[1], s[k]);
            if s[1] != s[k] {
              NewerChain(s[0], s[1], s[k]);
            }
          }
        }
      }
    }
  }

  lemma HeadIn(s: seq<Message>)
    ensures s != [] ==> s[0] in s
  {
  }

  /** Newest first, without duplicates, a set of messages has one arrangement. */
  lemma {:induction false} ArrangementUnique(s: seq<Message>, t: seq<Message>)
    requires NewestFirst(s) && NewestFirst(t) && forall m :: m in s <==> m in t
    ensures s == t
    decreases |s|
  {
    hide Newer;
    if s == [] {
      HeadIn(t);
    } else {
      assert s[0] in t;
      var i :| 0 <= i < |t| && t[i] == s[0];
      assert t[0] in s;
      var j :| 0 <= j < |s| && s[j] == t[0];
      NewerTotal(s[0], t[0]);
      assert s[0] == t[0];
      forall m ensures m in s[1..] <==> m in t[1..] {
        NewerTotal(s[0], s[0]);
        if m in s[1..] {
          assert m in t && m != s[0];
        }
        if m in t[1..] {
          assert m in s && m != t[0];
        }
      }
      ArrangementUnique(s[1..], t[1..]);
      assert s == [s[0]] + s[1..] && t == [t[0]] + t[1..];
    }
  }

  /** The inbox as it is read. */
  function Arranged(inbox: seq<Message>): (r: seq<Message>)
    ensures inbox != [] ==> r != []
  {
    assert |Sort(inbox)| == |multiset(Sort(inbox))| == |inbox|;
    Unique(Sort(inbox))
  }

  lemma ArrangedMeaning(inbox: seq<Message>)
    ensures NewestFirst(Arranged(inbox))
    ensures forall m :: m in Arranged(inbox) <==> m in inbox
  {
    SortOrders(inbox);
    UniqueStrict(Sort(inbox));
    forall m ensures m in Sort(inbox) <==> m in inbox {
      assert m in Sort(inbox) <==> m in multiset(Sort(inbox));
    }
  }

  /** What has been arranged stays as it is. */
  lemma ArrangedStays(s: seq<Message>)
    requires NewestFirst(s)
    ensures Arranged(s) == s
  {
    ArrangedMeaning(s);
    ArrangementUnique(Arranged(s), s);
  }

  // ---------- the node

  function Max(x: U64, y: U64): U64 {
    if x < y then y else x
  }

  /** `sync_tick`, then `update_tick`. */
  function Advance(tick: U64, remote: U64): U64 {
    ToU64(Max(tick, remote) + 1)
  }

  function Send(n: Node, value: Int64, tag: Int32, tick: U64, sender: Text): Node {
    var now := Advance(n.tick, tick);
    n.(tick := now, outbox := n.outbox + [Message(value, tag, now, if sender == [] then LOCAL else sender)])
  }

  const LOCAL: Text := ['l', 'o', 'c', 'a', 'l']

  function Merge(n: Node): (Node, Option<Message>) {
    if n.inbox == [] then (n, None)
    else
      var arranged := Arranged(n.inbox);
      (n.(tick := Advance(n.tick, arranged[0].tick), inbox := arranged[1..]), Some(arranged[0]))
  }

  /** What a merge takes out: no message is of a later tick, and among those of its tick none
      is from an earlier sender, nor then of a smaller tag, nor then of a smaller payload. */
  lemma MergedIsNewest(n: Node, m: Message)
    requires m in n.inbox
    ensures var h := Merge(n).1.value;
            && h in n.inbox
            && (m.tick != h.tick ==> m.tick < h.tick)
            && (m.tick == h.tick && m.sender != h.sender ==> TextLess(h.sender, m.sender))
            && (m.tick == h.tick && m.sender == h.sender && m.tag != h.tag ==> h.tag < m.tag)
            && (m.tick == h.tick && m.sender == h.sender && m.tag == h.tag ==> h.payload <= m.payload)
  {
    hide Arranged;
    var arranged := Arranged(n.inbox);
    ArrangedMeaning(n.inbox);
    var i :| 0 <= i < |arranged| && arranged[i] == m;
    assert arranged[0] in arranged;
    assert i > 0 ==> Newer(arranged[0], arranged[i]);
  }

  // ---------- draining an inbox

  /** Merges until the inbox is empty. */
  function Drain(n: Node): (r: (Node, seq<Message>))
    decreases |Arranged(n.inbox)|
  {
    if n.inbox == [] then (n, [])
    else
      var (n1, m) := Merge(n);
      MergeArranges(n);
      var (n2, rest) := Drain(n1);
      (n2, [m.value] + rest)
  }

  lemma MergeArranges(n: Node)
    requires n.inbox != []
    ensures Arranged(Merge(n).0.inbox) == Arranged(n.inbox)[1..]
  {
    ArrangedMeaning(n.inbox);
    ArrangedStays(Arranged(n.inbox)[1..]);
  }

  lemma {:induction false} DrainIsArranged(n: Node)
    ensures Drain(n).1 == Arranged(n.inbox)
    ensures Drain(n).0.inbox == [] && Drain(n).0.outbox == n.outbox
    decreases |Arranged(n.inbox)|
  {
    hide Arranged;
    if n.inbox == [] {
      ArrangedMeaning([]);
      HeadIn(Arranged([]));
    } else {
      var n1 := Merge(n).0;
      MergeArranges(n);
      DrainIsArranged(n1);
      assert Arranged(n.inbox) == [Arranged(n.inbox)[0]] + Arranged(n.inbox)[1..];
    }
  }

  /** Draining depends on the set of messages alone, not on their order or on how often each
      arrived: they come newest first, each once, and the clock ends the same. */
  lemma DrainDependsOnSet(n: Node, k: Node)
    requires n.tick == k.tick && n.outbox == k.outbox && forall m :: m in n.inbox <==> m in k.inbox
    ensures Drain(n) == Drain(k)
    ensures NewestFirst(Drain(n).1) && forall m :: m in Drain(n).1 <==> m in n.inbox
  {
    hide Drain, Arranged, NewestFirst;
    ArrangedMeaning(n.inbox);
    ArrangedMeaning(k.inbox);
    ArrangementUnique(Arranged(n.inbox), Arranged(k.inbox));
    DrainIsArranged(n);
    DrainIsArranged(k);
    HeadIn(n.inbox);
    HeadIn(k.inbox);
    SameDrain(n, k);
  }

  lemma {:induction false} SameDrain(n: Node, k: Node)
    requires n.tick == k.tick && n.outbox == k.outbox && Arranged(n.inbox) == Arranged(k.inbox)
    requires n.inbox == [] <==> k.inbox == []
    ensures Drain(n) == Drain(k)
    decreases |Arranged(n.inbox)|
  {
    hide Arranged;
    if n.inbox != [] {
      MergeArranges(n);
      MergeArranges(k);
      SameDrain(Merge(n).0, Merge(k).0);
    }
  }

  /** Where the clock does not wrap, draining n messages takes it to the larger of its old
      value and the newest tick, plus n. */
  lemma {:induction false} DrainClock(n: Node)
    requires n.inbox != []
    requires var s := Arranged(n.inbox); Max(n.tick, s[0].tick) + |s| < U64_LIMIT
    ensures var s := Arranged(n.inbox);
            && (forall m :: m in n.inbox ==> m.tick <= s[0].tick)
            && Drain(n).0.tick == Max(n.tick, s[0].tick) + |s|
    decreases |Arranged(n.inbox)|
  {
    hide Arranged;
    var s := Arranged(n.inbox);
    ArrangedMeaning(n.inbox);
    forall m | m in n.inbox ensures m.tick <= s[0].tick {
      assert m in s;
    }
    var n1 := Merge(n).0;
    MergeArranges(n);
    if n1.inbox != [] {
      assert s[1] in n1.inbox;
      assert s[1] in n.inbox;
      DrainClock(n1);
    }
  }

  // ---------- causality

  datatype Event =
    | Sent(value: Int64, tag: Int32, seen: U64, sender: Text)
    | Received(message: Message)
    | Merged
    | Synced(remote: U64)

  function Step(n: Node, e: Event): Node {
    match e
    case Sent(value, tag, seen, sender) => Send(n, value, tag, seen, sender)
    case Received(m) => n.(inbox := n.inbox + [m])
    case Merged => Merge(n).0
    case Synced(remote) => n.(tick := Max(n.tick, remote))
  }

  function Run(n: Node, events: seq<Event>): Node
    decreases |events|
  {
    if events == [] then n else Run(Step(n, events[0]), events[1..])
  }

  /** No clock or tick on the way is so near the end of its range that it wraps. */
  predicate Roomy(n: Node, events: seq<Event>)
    decreases |events|
  {
    && n.tick + |events| < U64_LIMIT
    && (forall m :: m in n.inbox ==> m.tick + |events| < U64_LIMIT)
    && (events != [] ==>
          && (events[0].Sent? ==> events[0].seen + |events| < U64_LIMIT)
          && (events[0].Synced? ==> events[0].remote + |events| < U64_LIMIT)
          && Roomy(Step(n, events[0]), events[1..]))
  }

  lemma ClockGrows(n: Node, e: Event)
    requires n.tick + 1 < U64_LIMIT && forall m :: m in n.inbox ==> m.tick + 1 < U64_LIMIT
    requires e.Sent? ==> e.seen + 1 < U64_LIMIT
    ensures n.tick <= Step(n, e).tick && n.outbox <= Step(n, e).outbox
    ensures e.Merged? && n.inbox != [] ==> Merge(n).1.value.tick < Step(n, e).tick
    ensures forall i :: |n.outbox| <= i < |Step(n, e).outbox| ==> n.tick < Step(n, e).outbox[i].tick
  {
    hide Merge;
    MergeAdvances(n);
  }

  lemma MergeAdvances(n: Node)
    requires n.tick + 1 < U64_LIMIT && forall m :: m in n.inbox ==> m.tick + 1 < U64_LIMIT
    ensures var (n', m) := Merge(n);
            n.tick <= n'.tick && n'.outbox == n.outbox && (n.inbox != [] ==> m.Some? && m.value.tick < n'.tick)
  {
    hide Arranged;
    if n.inbox != [] {
      ArrangedMeaning(n.inbox);
      hide NewestFirst, Newer;
      assert Arranged(n.inbox)[0] in n.inbox;
    }
  }

  /** Over any run the clock never goes back, and what is sent is stamped later than any
      clock value before. */
  lemma {:induction false} SentLater(n: Node, events: seq<Event>)
    requires Roomy(n, events)
    ensures var k := Run(n, events);
            && n.tick <= k.tick && n.outbox <= k.outbox
            && forall i :: |n.outbox| <= i < |k.outbox| ==> n.tick < k.outbox[i].tick
    decreases |events|
  {
    hide Step;
    if events != [] {
      var n1 := Step(n, events[0]);
      ClockGrows(n, events[0]);
      SentLater(n1, events[1..]);
      var k := Run(n, events);
      forall i | |n.outbox| <= i < |k.outbox| ensures n.tick < k.outbox[i].tick {
        if i < |n1.outbox| {
          assert k.outbox[i] == n1.outbox[i];
        }
      }
    }
  }

  /** Every message sent after merging `m` carries a larger tick than `m`. */
  lemma SentAfterMergeIsLater(n: Node, later: seq<Event>)
    requires n.inbox != [] && Roomy(n, [Merged] + later)
    ensures var m := Merge(n).1.value;
            var n1 := Merge(n).0;
            var k := Run(n1, later);
            forall i :: |n1.outbox| <= i < |k.outbox| ==> m.tick < k.outbox[i].tick
  {
    assert ([Merged] + later)[0] == Merged && ([Merged] + later)[1..] == later;
    ClockGrows(n, Merged);
    SentLater(Merge(n).0, later);
  }

  // ---------- the node as it runs

  class NodeState {
    var tick: U64
    var inbox: seq<Message>
    var outbox: seq<Message>

    function View(): Node
      reads this
    {
      Node(tick, inbox, outbox)
    }

    constructor ()
      ensures View() == Node(0, [], [])
    {
      tick, inbox, outbox := 0, [], [];
    }

    method UpdateTick()
      modifies `tick
      ensures tick == ToU64(old(tick) + 1)
    {
      tick := ToU64(tick + 1);
    }

    method SyncTick(remote: U64)
      modifies `tick
      ensures View() == Step(old(View()), Synced(remote))
    {
      if remote > tick {
        tick := remote;
      }
    }

    method SendMessage(value: Int64, tag: Int32, seen: U64, sender: Text)
      modifies `tick, `outbox
      ensures View() == Step(old(View()), Sent(value, tag, seen, sender))
    {
      SyncTick(seen);
      UpdateTick();
      outbox := outbox + [Message(value, tag, tick, if sender == [] then LOCAL else sender)];
    }

    method MergeMessage() returns (m: Option<Message>)
      modifies `tick, `inbox
      ensures (View(), m) == Merge(old(View()))
      ensures m.Some? ==> m.value in old(inbox) && m.value !in inbox
      ensures forall k :: k in old(inbox) ==> k in inbox || m == Some(k)
    {
      hide Newer;
      if inbox == [] {
        return None;
      }
      ArrangedMeaning(inbox);
      inbox := Sort(inbox);
      inbox := Unique(inbox);
      assert inbox == Arranged(old(inbox));
      var first := inbox[0];
      NewerTotal(first, first);
      inbox := inbox[1..];
      SyncTick(first.tick);
      UpdateTick();
      m := Some(first);
    }
  }
}
