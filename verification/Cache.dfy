/** The bytes-bounded LRU behind the Parquet reader (src/cache.rs). */
module ByteCaches {
  import opened Bytes

  /** One byte range of one object. */
  datatype Range = Range(path: string, start: nat, end: nat)

  datatype Cached = Cached(bytes: seq<byte>, tick: nat)

  type Entries = map<Range, Cached>

  /** Recency tick to range: the least recent range holds the lowest tick. */
  type Ticks = map<nat, Range>

  /** A range as the recency list sees it. */
  datatype Item = Item(key: Range, size: nat)

  // ---- The abstract recency list, coldest first -----------------------------------------------------

  function Total(list: seq<Item>): nat {
    if list == [] then 0 else list[0].size + Total(list[1..])
  }

  function Without(list: seq<Item>, x: Item): seq<Item> {
    if list == [] then []
    else (if list[0] == x then [] else [list[0]]) + Without(list[1..], x)
  }

  /** What is left once cold ranges have made way for `room` bytes at most. */
  function Warm(list: seq<Item>, room: nat): seq<Item> {
    if Total(list) <= room then list else Warm(list[1..], room)
  }

  /** A range is wanted: it moves to the hot end, or enters there if it can ever fit. */
  function Touched(list: seq<Item>, x: Item, budget: nat): seq<Item> {
    if x in list then Without(list, x) + [x]
    else if x.size <= budget then Warm(list, budget - x.size) + [x]
    else list
  }

  function After(trace: seq<Item>, budget: nat): seq<Item> {
    if trace == [] then []
    else Touched(After(trace[..|trace| - 1], budget), trace[|trace| - 1], budget)
  }

  lemma AfterSnoc(trace: seq<Item>, x: Item, budget: nat)
    ensures After(trace + [x], budget) == Touched(After(trace, budget), x, budget)
  {
    assert (trace + [x])[..|trace|] == trace;
  }

  predicate Distinct(list: seq<Item>) {
    forall i, j :: 0 <= i < j < |list| ==> list[i] != list[j]
  }

  lemma {:induction false} TotalConcat(a: seq<Item>, b: seq<Item>)
    ensures Total(a + b) == Total(a) + Total(b)
  {
    if a == [] {
      assert a + b == b;
    } else {
      TotalConcat(a[1..], b);
      assert (a + b)[1..] == a[1..] + b;
    }
  }

  lemma TotalOne(x: Item)
    ensures Total([x]) == x.size
  {
    assert [x][1..] == [];
  }

  lemma {:induction false} WithoutConcat(a: seq<Item>, b: seq<Item>, x: Item)
    ensures Without(a + b, x) == Without(a, x) + Without(b, x)
  {
    if a == [] {
      assert a + b == b;
    } else {
      WithoutConcat(a[1..], b, x);
      assert (a + b)[1..] == a[1..] + b && (a + b)[0] == a[0];
      var first := if a[0] == x then [] else [a[0]];
      assert first + (Without(a[1..], x) + Without(b, x)) == (first + Without(a[1..], x)) + Without(b, x);
    }
  }

  lemma {:induction false} WithoutAbsent(list: seq<Item>, x: Item)
    requires x !in list
    ensures Without(list, x) == list
  {
    if list != [] {
      WithoutAbsent(list[1..], x);
    }
  }

  lemma {:induction false} WithoutMembers(list: seq<Item>, x: Item)
    ensures forall y :: y in Without(list, x) <==> y in list && y != x
    ensures Distinct(list) ==> Distinct(Without(list, x))
  {
    if list != [] {
      var rest := Without(list[1..], x);
      WithoutMembers(list[1..], x);
      assert forall y :: y in list <==> y == list[0] || y in list[1..];
      if Distinct(list) {
        assert list[0] !in list[1..];
        assert Distinct([list[0]] + rest);
        assert [] + rest == rest;
      }
    }
  }

  lemma WithoutOnly(x: Item)
    ensures Without([x], x) == []
  {
    assert [x][1..] == [];
  }

  lemma WithoutMiddle(a: seq<Item>, x: Item, b: seq<Item>)
    requires x !in a && x !in b
    ensures Without(a + ([x] + b), x) == a + b
    ensures Total(a + ([x] + b)) == Total(a + b) + x.size
  {
    hide Without, Total;
    WithoutConcat(a, [x] + b, x);
    WithoutConcat([x], b, x);
    WithoutAbsent(a, x);
    WithoutAbsent(b, x);
    WithoutOnly(x);
    assert [] + b == b;
    TotalConcat(a, [x] + b);
    TotalConcat([x], b);
    TotalOne(x);
    TotalConcat(a, b);
  }

  lemma WithoutAt(list: seq<Item>, i: nat)
    requires Distinct(list) && i < |list|
    ensures Without(list, list[i]) == list[..i] + list[i + 1..]
    ensures Total(Without(list, list[i])) == Total(list) - list[i].size
  {
    hide Without, Total, Distinct;
    var x, a, b := list[i], list[..i], list[i + 1..];
    DistinctAround(list, i);
    WithoutMiddle(a, x, b);
  }

  lemma DistinctAround(list: seq<Item>, i: nat)
    requires Distinct(list) && i < |list|
    ensures list[i] !in list[..i] && list[i] !in list[i + 1..]
    ensures list == list[..i] + ([list[i]] + list[i + 1..])
  {
    var b := list[i + 1..];
    forall j | 0 <= j < |b|
      ensures b[j] != list[i]
    {
      assert b[j] == list[i + 1 + j];
    }
  }

  /** Eviction drops the shortest cold prefix that makes room: what it leaves fits, and leaving
      any more would not. */
  lemma {:induction false} WarmDropsShortestPrefix(list: seq<Item>, room: nat) returns (n: nat)
    ensures n <= |list| && Warm(list, room) == list[n..] && Total(list[n..]) <= room
    ensures forall m :: 0 <= m < n ==> Total(list[m..]) > room
  {
    if Total(list) <= room {
      n := 0;
    } else {
      var rest := WarmDropsShortestPrefix(list[1..], room);
      n := rest + 1;
      forall m | 0 <= m < n
        ensures Total(list[m..]) > room
      {
        if m > 0 {
          assert list[m..] == list[1..][m - 1..];
        }
      }
      assert list[n..] == list[1..][rest..];
    }
  }

  lemma {:induction false} WarmSnoc(list: seq<Item>, x: Item, budget: nat)
    requires x.size <= budget
    ensures Warm(list + [x], budget) == Warm(list, budget - x.size) + [x]
  {
    TotalConcat(list, [x]);
    TotalOne(x);
    if Total(list) > budget - x.size {
      WarmSnoc(list[1..], x, budget);
      assert (list + [x])[1..] == list[1..] + [x];
    }
  }

  // ---- Residency over whole traces ------------------------------------------------------------------

  /** Every range of the trace that could be admitted, once each, in order of last touch. */
  function Stack(trace: seq<Item>, budget: nat): seq<Item> {
    if trace == [] then []
    else
      var init, x := Stack(trace[..|trace| - 1], budget), trace[|trace| - 1];
      if x.size <= budget then Without(init, x) + [x] else init
  }

  lemma {:induction false} StackMembers(trace: seq<Item>, budget: nat)
    ensures Distinct(Stack(trace, budget))
    ensures forall x :: x in Stack(trace, budget) <==> x in trace && x.size <= budget
  {
    if trace != [] {
      var n := |trace| - 1;
      StackMembers(trace[..n], budget);
      WithoutMembers(Stack(trace[..n], budget), trace[n]);
      assert forall x :: x in trace <==> x in trace[..n] || x == trace[n];
    }
  }

  lemma {:induction false} WarmMoves(stack: seq<Item>, x: Item, budget: nat)
    requires Distinct(stack) && x in Warm(stack, budget)
    ensures Warm(Without(stack, x) + [x], budget) == Without(Warm(stack, budget), x) + [x]
  {
    WarmSuffix(stack, budget);
    var i :| 0 <= i < |stack| && stack[i] == x;
    WithoutAt(stack, i);
    TotalConcat(Without(stack, x), [x]);
    TotalOne(x);
    if Total(stack) > budget {
      WarmSuffix(stack[1..], budget);
      WarmMoves(stack[1..], x, budget);
      assert (Without(stack, x) + [x])[1..] == Without(stack[1..], x) + [x];
    }
  }

  lemma WarmSuffix(list: seq<Item>, room: nat)
    ensures forall y :: y in Warm(list, room) ==> y in list
  {
    var n := WarmDropsShortestPrefix(list, room);
  }

  lemma {:induction false} WarmAdmits(stack: seq<Item>, x: Item, budget: nat)
    requires Distinct(stack) && x !in Warm(stack, budget) && x.size <= budget
    ensures Warm(Without(stack, x) + [x], budget) == Warm(Warm(stack, budget), budget - x.size) + [x]
  {
    if Total(stack) <= budget {
      WithoutAbsent(stack, x);
      WarmSnoc(stack, x, budget);
    } else if stack[0] == x {
      assert x !in stack[1..];
      WithoutAbsent(stack[1..], x);
      assert Without(stack, x) == [] + Without(stack[1..], x) == stack[1..];
      assert Warm(stack, budget) == Warm(stack[1..], budget);
      WarmAdmits(stack[1..], x, budget);
    } else {
      WarmAdmits(stack[1..], x, budget);
      WithoutTotal(stack, x);
      TotalConcat(Without(stack, x), [x]);
      TotalOne(x);
      assert (Without(stack, x) + [x])[1..] == Without(stack[1..], x) + [x];
    }
  }

  lemma WithoutTotal(list: seq<Item>, x: Item)
    requires Distinct(list)
    ensures Total(Without(list, x)) + x.size >= Total(list)
  {
    if x in list {
      var i :| 0 <= i < |list| && list[i] == x;
      WithoutAt(list, i);
    } else {
      WithoutAbsent(list, x);
    }
  }

  /** The cache is always the hottest part of the whole recency stack that fits the budget. */
  lemma {:induction false} CacheIsHotSuffix(trace: seq<Item>, budget: nat)
    ensures After(trace, budget) == Warm(Stack(trace, budget), budget)
  {
    hide Without, Warm, Distinct;
    WarmFits([], budget);
    if trace == [] {
      assert Total([]) == 0;
    } else {
      var init, x := trace[..|trace| - 1], trace[|trace| - 1];
      CacheIsHotSuffix(init, budget);
      StackMembers(init, budget);
      WarmSuffix(Stack(init, budget), budget);
      if x in After(init, budget) {
        WarmMoves(Stack(init, budget), x, budget);
      } else if x.size <= budget {
        WarmAdmits(Stack(init, budget), x, budget);
      }
    }
  }

  /** Everything above a range in the stack is what was touched after it. */
  lemma {:induction false} StackSplits(trace: seq<Item>, i: nat, budget: nat) returns (older: seq<Item>)
    requires i < |trace| && trace[i] !in trace[i + 1..] && trace[i].size <= budget
    ensures Stack(trace, budget) == older + [trace[i]] + Stack(trace[i + 1..], budget)
    decreases |trace|
  {
    var n, x := |trace| - 1, trace[i];
    var init, y := trace[..n], trace[n];
    if i == n {
      older := Without(Stack(init, budget), x);
    } else {
      var later := trace[i + 1..];
      assert init[i + 1..] == later[..|later| - 1] && y == later[|later| - 1];
      older := StackSplits(init, i, budget);
      if y.size <= budget {
        var above := Stack(init[i + 1..], budget);
        WithoutConcat(older + [x], above, y);
        WithoutConcat(older, [x], y);
        WithoutAbsent([x], y);
        older := Without(older, y);
      }
    }
  }

  lemma {:induction false} WarmHolds(older: seq<Item>, x: Item, newer: seq<Item>, budget: nat)
    requires x !in newer
    ensures x in Warm(older + [x] + newer, budget) <==> x.size + Total(newer) <= budget
  {
    var all := older + [x] + newer;
    TotalConcat(older + [x], newer);
    TotalConcat(older, [x]);
    TotalOne(x);
    if Total(all) <= budget {
      assert all[|older|] == x;
    } else if older == [] {
      assert all[1..] == newer;
      WarmSuffix(newer, budget);
    } else {
      WarmHolds(older[1..], x, newer, budget);
      assert all[1..] == older[1..] + [x] + newer;
    }
  }

  /** After any trace a range is resident exactly when it fits the budget together with every
      other range admitted since it was last touched, each counted once. */
  lemma ResidentExactly(trace: seq<Item>, i: nat, budget: nat)
    requires i < |trace| && trace[i] !in trace[i + 1..]
    ensures trace[i] in After(trace, budget)
            <==> trace[i].size <= budget && trace[i].size + Total(Stack(trace[i + 1..], budget)) <= budget
  {
    hide Stack, After, Warm, Total;
    CacheIsHotSuffix(trace, budget);
    StackMembers(trace, budget);
    WarmSuffix(Stack(trace, budget), budget);
    StackMembers(trace[i + 1..], budget);
    if trace[i].size <= budget {
      var older := StackSplits(trace, i, budget);
      WarmHolds(older, trace[i], Stack(trace[i + 1..], budget), budget);
    }
  }

  lemma UntouchedIsAbsent(trace: seq<Item>, x: Item, budget: nat)
    requires x !in trace
    ensures x !in After(trace, budget)
  {
    CacheIsHotSuffix(trace, budget);
    StackMembers(trace, budget);
    WarmSuffix(Stack(trace, budget), budget);
  }

  // ---- Inclusion ----------------------------------------------------------------------------------

  predicate AllFit(trace: seq<Item>, budget: nat) {
    forall x :: x in trace ==> x.size <= budget
  }

  lemma {:induction false} SameStack(trace: seq<Item>, small: nat, large: nat)
    requires small <= large && AllFit(trace, small)
    ensures Stack(trace, small) == Stack(trace, large)
  {
    if trace != [] {
      SameStack(trace[..|trace| - 1], small, large);
    }
  }

  lemma {:induction false} WarmGrows(list: seq<Item>, small: nat, large: nat)
    requires small <= large
    ensures forall x :: x in Warm(list, small) ==> x in Warm(list, large)
  {
    if Total(list) <= large {
      WarmSuffix(list, small);
    } else {
      WarmGrows(list[1..], small, large);
    }
  }

  /** LRU inclusion: replaying one trace, a larger budget always holds everything a smaller one
      holds, provided the smaller could admit every range. */
  lemma LargerHoldsMore(trace: seq<Item>, small: nat, large: nat)
    requires small <= large && AllFit(trace, small)
    ensures forall x :: x in After(trace, small) ==> x in After(trace, large)
  {
    CacheIsHotSuffix(trace, small);
    CacheIsHotSuffix(trace, large);
    SameStack(trace, small, large);
    WarmGrows(Stack(trace, small), small, large);
  }

  function Misses(trace: seq<Item>, budget: nat): nat {
    if trace == [] then 0
    else
      var init := trace[..|trace| - 1];
      Misses(init, budget) + if trace[|trace| - 1] in After(init, budget) then 0 else 1
  }

  lemma {:induction false} LargerNeverMissesMore(trace: seq<Item>, small: nat, large: nat)
    requires small <= large && AllFit(trace, small)
    ensures Misses(trace, large) <= Misses(trace, small)
  {
    if trace != [] {
      var init := trace[..|trace| - 1];
      LargerNeverMissesMore(init, small, large);
      LargerHoldsMore(init, small, large);
    }
  }

  /** Without the proviso the larger cache can miss more: it admits a range the smaller one
      refuses, and loses a useful one to it. */
  lemma LargerCanMissMore()
    ensures exists trace, small: nat, large: nat :: small <= large && Misses(trace, large) > Misses(trace, small)
  {
    var a, b := Item(Range("f", 0, 1), 1), Item(Range("f", 1, 3), 2);
    hide After, Misses, Touched;
    AfterNone(1);
    AfterNone(2);
    MissesSnoc([], a, 1);
    MissesSnoc([], a, 2);
    MissesSnoc([a], b, 1);
    MissesSnoc([a], b, 2);
    MissesSnoc([a, b], a, 1);
    MissesSnoc([a, b], a, 2);
    assert [] + [a] == [a] && [a] + [b] == [a, b];
    TouchedColds(a, b);
    assert Misses([a, b] + [a], 2) > Misses([a, b] + [a], 1);
  }

  lemma AfterNone(budget: nat)
    ensures After([], budget) == [] && Misses([], budget) == 0
  {
  }

  lemma MissesSnoc(trace: seq<Item>, x: Item, budget: nat)
    ensures After(trace + [x], budget) == Touched(After(trace, budget), x, budget)
    ensures Misses(trace + [x], budget) == Misses(trace, budget) + if x in After(trace, budget) then 0 else 1
  {
    assert (trace + [x])[..|trace|] == trace;
  }

  lemma TouchedColds(a: Item, b: Item)
    requires a.size == 1 && b.size == 2
    ensures Touched([], a, 1) == [a] && Touched([], a, 2) == [a]
    ensures Touched([a], b, 1) == [a] && Touched([a], b, 2) == [b]
  {
    assert [a][1..] == [] && [] + [a] == [a] && [] + [b] == [b];
    assert Warm([a], 0) == [];
  }

  // ---- The two cross-linked maps --------------------------------------------------------------------

  /** The maps are inverse to each other, and `recency` lists them by increasing tick. */
  ghost predicate CrossLinked(entries: Entries, byRecency: Ticks, recency: seq<Item>, tick: nat) {
    && AllLinked(entries, byRecency, recency, tick)
    && TicksIncrease(entries, recency)
    && AllListed(entries, recency)
    && Inverse(entries, byRecency)
  }

  ghost predicate AllLinked(entries: Entries, byRecency: Ticks, recency: seq<Item>, tick: nat) {
    forall x :: x in recency ==> IsLinked(entries, byRecency, x, tick)
  }

  predicate TicksIncrease(entries: Entries, recency: seq<Item>) {
    forall i, j :: 0 <= i < j < |recency| ==> Earlier(entries, recency[i].key, recency[j].key)
  }

  predicate Earlier(entries: Entries, a: Range, b: Range) {
    a in entries && b in entries && entries[a].tick < entries[b].tick
  }

  ghost predicate AllListed(entries: Entries, recency: seq<Item>) {
    forall k :: k in entries ==> Item(k, |entries[k].bytes|) in recency
  }

  ghost predicate Inverse(entries: Entries, byRecency: Ticks) {
    forall t :: t in byRecency ==> byRecency[t] in entries && entries[byRecency[t]].tick == t
  }

  predicate IsLinked(entries: Entries, byRecency: Ticks, x: Item, tick: nat) {
    && x.key in entries && |entries[x.key].bytes| == x.size && entries[x.key].tick <= tick
    && entries[x.key].tick in byRecency && byRecency[entries[x.key].tick] == x.key
  }

  lemma LinkedIsDistinct(entries: Entries, byRecency: Ticks, recency: seq<Item>, tick: nat)
    requires CrossLinked(entries, byRecency, recency, tick)
    ensures Distinct(recency)
  {
    forall i, j | 0 <= i < j < |recency|
      ensures recency[i] != recency[j]
    {
      assert Earlier(entries, recency[i].key, recency[j].key);
    }
  }

  function Skipping(recency: seq<Item>, i: nat): (rest: seq<Item>)
    requires i < |recency|
    ensures |rest| == |recency| - 1
    ensures forall j :: 0 <= j < |rest| ==> rest[j] == recency[if j < i then j else j + 1]
  {
    recency[..i] + recency[i + 1..]
  }

  lemma LinkedAt(entries: Entries, byRecency: Ticks, recency: seq<Item>, tick: nat, i: nat)
    requires AllLinked(entries, byRecency, recency, tick) && i < |recency|
    ensures IsLinked(entries, byRecency, recency[i], tick)
  {
  }

  lemma UnlinkKeeps(entries: Entries, byRecency: Ticks, recency: seq<Item>, tick: nat, i: nat)
    requires CrossLinked(entries, byRecency, recency, tick) && i < |recency|
    ensures recency[i].key in entries
    ensures var k := recency[i].key;
            CrossLinked(entries - {k}, byRecency - {entries[k].tick}, Skipping(recency, i), tick)
  {
    hide Skipping, AllLinked, TicksIncrease, AllListed, Inverse, Earlier;
    LinkedAt(entries, byRecency, recency, tick, i);
    UnlinkLinks(entries, byRecency, recency, tick, i);
    UnlinkOrder(entries, recency, i);
    UnlinkListed(entries, recency, i);
    UnlinkInverse(entries, byRecency, recency[i].key);
  }

  lemma UnlinkLinks(entries: Entries, byRecency: Ticks, recency: seq<Item>, tick: nat, i: nat)
    requires AllLinked(entries, byRecency, recency, tick) && TicksIncrease(entries, recency) && i < |recency|
    ensures recency[i].key in entries
    ensures var k := recency[i].key;
            AllLinked(entries - {k}, byRecency - {entries[k].tick}, Skipping(recency, i), tick)
  {
    hide Skipping;
    var k, rest := recency[i].key, Skipping(recency, i);
    LinkedAt(entries, byRecency, recency, tick, i);
    forall x | x in rest
      ensures IsLinked(entries - {k}, byRecency - {entries[k].tick}, x, tick)
    {
      var j :| 0 <= j < |rest| && rest[j] == x;
      var m := if j < i then j else j + 1;
      LinkedAt(entries, byRecency, recency, tick, m);
      assert m < i ==> Earlier(entries, recency[m].key, k);
      assert m > i ==> Earlier(entries, k, recency[m].key);
    }
  }

  lemma UnlinkOrder(entries: Entries, recency: seq<Item>, i: nat)
    requires TicksIncrease(entries, recency) && i < |recency|
    ensures TicksIncrease(entries - {recency[i].key}, Skipping(recency, i))
  {
    hide Skipping;
    var rest := Skipping(recency, i);
    forall j, m | 0 <= j < m < |rest|
      ensures Earlier(entries - {recency[i].key}, rest[j].key, rest[m].key)
    {
      var j', m' := if j < i then j else j + 1, if m < i then m else m + 1;
      assert Earlier(entries, recency[j'].key, recency[m'].key);
      assert j' < i ==> Earlier(entries, recency[j'].key, recency[i].key);
      assert j' > i ==> Earlier(entries, recency[i].key, recency[j'].key);
      assert m' < i ==> Earlier(entries, recency[m'].key, recency[i].key);
      assert m' > i ==> Earlier(entries, recency[i].key, recency[m'].key);
    }
  }

  lemma UnlinkListed(entries: Entries, recency: seq<Item>, i: nat)
    requires AllListed(entries, recency) && i < |recency|
    ensures AllListed(entries - {recency[i].key}, Skipping(recency, i))
  {
    hide Skipping;
    var entries', rest := entries - {recency[i].key}, Skipping(recency, i);
    forall k | k in entries'
      ensures Item(k, |entries'[k].bytes|) in rest
    {
      var j :| 0 <= j < |recency| && recency[j] == Item(k, |entries[k].bytes|);
      assert rest[if j < i then j else j - 1] == recency[j];
    }
  }

  lemma UnlinkInverse(entries: Entries, byRecency: Ticks, k: Range)
    requires Inverse(entries, byRecency) && k in entries
    ensures Inverse(entries - {k}, byRecency - {entries[k].tick})
  {
  }

  lemma LinkKeeps(entries: Entries, byRecency: Ticks, recency: seq<Item>, tick: nat, key: Range, bytes: seq<byte>)
    requires CrossLinked(entries, byRecency, recency, tick) && key !in entries
    ensures CrossLinked(entries[key := Cached(bytes, tick + 1)], byRecency[tick + 1 := key],
                        recency + [Item(key, |bytes|)], tick + 1)
  {
    LinkLinks(entries, byRecency, recency, tick, key, bytes);
    LinkOrder(entries, byRecency, recency, tick, key, bytes);
    hide AllLinked, TicksIncrease;
    var entries', more := entries[key := Cached(bytes, tick + 1)], recency + [Item(key, |bytes|)];
    forall m | m in entries'
      ensures Item(m, |entries'[m].bytes|) in more
    {
      if m == key {
        assert more[|recency|] == Item(m, |bytes|);
      } else {
        assert Item(m, |entries[m].bytes|) in recency;
      }
    }
  }

  lemma LinkLinks(entries: Entries, byRecency: Ticks, recency: seq<Item>, tick: nat, key: Range, bytes: seq<byte>)
    requires AllLinked(entries, byRecency, recency, tick) && key !in entries
    ensures AllLinked(entries[key := Cached(bytes, tick + 1)], byRecency[tick + 1 := key],
                      recency + [Item(key, |bytes|)], tick + 1)
  {
    forall x | x in recency + [Item(key, |bytes|)]
      ensures IsLinked(entries[key := Cached(bytes, tick + 1)], byRecency[tick + 1 := key], x, tick + 1)
    {
      if x in recency {
        assert IsLinked(entries, byRecency, x, tick);
      }
    }
  }

  lemma LinkOrder(entries: Entries, byRecency: Ticks, recency: seq<Item>, tick: nat, key: Range, bytes: seq<byte>)
    requires AllLinked(entries, byRecency, recency, tick) && TicksIncrease(entries, recency) && key !in entries
    ensures TicksIncrease(entries[key := Cached(bytes, tick + 1)], recency + [Item(key, |bytes|)])
  {
    var entries', more := entries[key := Cached(bytes, tick + 1)], recency + [Item(key, |bytes|)];
    forall i, j | 0 <= i < j < |more|
      ensures Earlier(entries', more[i].key, more[j].key)
    {
      LinkedAt(entries, byRecency, recency, tick, i);
      assert j < |recency| ==> Earlier(entries, recency[i].key, recency[j].key);
    }
  }

  /** The lowest tick is the coldest range's. */
  lemma ColdestIsFirst(entries: Entries, byRecency: Ticks, recency: seq<Item>, tick: nat)
    requires CrossLinked(entries, byRecency, recency, tick) && recency != []
    ensures recency[0].key in entries
    ensures var first := entries[recency[0].key].tick;
            first in byRecency && byRecency[first] == recency[0].key && forall t :: t in byRecency ==> first <= t
  {
    LinkedAt(entries, byRecency, recency, tick, 0);
    forall t | t in byRecency
      ensures entries[recency[0].key].tick <= t
    {
      var k := byRecency[t];
      assert Item(k, |entries[k].bytes|) in recency;
      var j :| 0 <= j < |recency| && recency[j].key == k;
      assert j > 0 ==> Earlier(entries, recency[0].key, recency[j].key);
    }
  }

  lemma ItemOf(entries: Entries, byRecency: Ticks, recency: seq<Item>, tick: nat, key: Range) returns (i: nat)
    requires CrossLinked(entries, byRecency, recency, tick) && key in entries
    ensures i < |recency| && recency[i] == Item(key, |entries[key].bytes|)
  {
    i :| 0 <= i < |recency| && recency[i] == Item(key, |entries[key].bytes|);
  }

  /** Taking a range out of both maps. */
  lemma RemoveKeeps(entries: Entries, byRecency: Ticks, recency: seq<Item>, tick: nat, key: Range)
    requires CrossLinked(entries, byRecency, recency, tick) && key in entries
    ensures var x := Item(key, |entries[key].bytes|);
            && x in recency && Total(Without(recency, x)) == Total(recency) - x.size
            && |Without(recency, x)| == |recency| - 1
            && CrossLinked(entries - {key}, byRecency - {entries[key].tick}, Without(recency, x), tick)
  {
    hide CrossLinked, Total, Without, Distinct;
    var i := ItemOf(entries, byRecency, recency, tick, key);
    LinkedIsDistinct(entries, byRecency, recency, tick);
    WithoutAt(recency, i);
    UnlinkKeeps(entries, byRecency, recency, tick, i);
    assert Skipping(recency, i) == recency[..i] + recency[i + 1..];
  }

  /** Entering a range at the hot end. */
  lemma AddKeeps(entries: Entries, byRecency: Ticks, recency: seq<Item>, tick: nat, key: Range, bytes: seq<byte>)
    requires CrossLinked(entries, byRecency, recency, tick) && key !in entries
    ensures var x := Item(key, |bytes|);
            && Total(recency + [x]) == Total(recency) + x.size
            && CrossLinked(entries[key := Cached(bytes, tick + 1)], byRecency[tick + 1 := key], recency + [x], tick + 1)
  {
    hide CrossLinked, Total;
    LinkKeeps(entries, byRecency, recency, tick, key, bytes);
    TotalConcat(recency, [Item(key, |bytes|)]);
    TotalOne(Item(key, |bytes|));
  }

  lemma UnknownIsAbsent(entries: Entries, byRecency: Ticks, recency: seq<Item>, tick: nat, x: Item)
    requires CrossLinked(entries, byRecency, recency, tick) && x.key !in entries
    ensures x !in recency
  {
    forall i | 0 <= i < |recency|
      ensures recency[i] != x
    {
      assert IsLinked(entries, byRecency, recency[i], tick);
    }
  }

  ghost predicate IsLowest(byRecency: Ticks, first: nat) {
    first in byRecency && forall t :: t in byRecency ==> first <= t
  }

  lemma SomethingToEvict(entries: Entries, byRecency: Ticks, recency: seq<Item>, tick: nat, room: nat)
    requires CrossLinked(entries, byRecency, recency, tick) && Total(recency) > room
    ensures byRecency != map[] && recency != [] && Warm(recency[1..], room) == Warm(recency, room)
    ensures exists t :: IsLowest(byRecency, t)
  {
    assert recency != [];
    ColdestIsFirst(entries, byRecency, recency, tick);
    assert IsLowest(byRecency, entries[recency[0].key].tick);
  }

  lemma ColdIsKnown(entries: Entries, byRecency: Ticks, recency: seq<Item>, tick: nat)
    requires CrossLinked(entries, byRecency, recency, tick) && recency != []
    ensures recency[0].key in entries && |entries[recency[0].key].bytes| == recency[0].size
  {
    LinkedAt(entries, byRecency, recency, tick, 0);
  }

  /** Whoever holds the lowest tick is the coldest range, and it can be evicted. */
  lemma EvictKeeps(entries: Entries, byRecency: Ticks, recency: seq<Item>, tick: nat, first: nat)
    requires CrossLinked(entries, byRecency, recency, tick) && recency != [] && IsLowest(byRecency, first)
    ensures var victim := byRecency[first];
            && victim in entries
            && |entries[victim].bytes| + Total(recency[1..]) == Total(recency)
            && CrossLinked(entries - {victim}, byRecency - {first}, recency[1..], tick)
  {
    hide CrossLinked, IsLinked;
    ColdestIsFirst(entries, byRecency, recency, tick);
    assert recency[0].key in entries && |entries[recency[0].key].bytes| == recency[0].size by {
      ColdIsKnown(entries, byRecency, recency, tick);
    }
    UnlinkKeeps(entries, byRecency, recency, tick, 0);
    assert Skipping(recency, 0) == recency[1..];
  }

  lemma WarmFits(list: seq<Item>, room: nat)
    ensures Total(list) <= room ==> Warm(list, room) == list
  {
  }

  lemma TouchedResident(list: seq<Item>, x: Item, budget: nat)
    requires x in list
    ensures Touched(list, x, budget) == Without(list, x) + [x]
  {
  }

  function Min(a: nat, b: nat): nat {
    if a < b then a else b
  }

  class ByteCache {
    const maxBytes: nat
    var entries: Entries
    var byRecency: Ticks
    var resident: nat
    var tick: nat
    var hits: nat
    var misses: nat
    var bytesFetched: nat
    var evictions: nat
    ghost var recency: seq<Item>
    ghost var trace: seq<Item>  // every range served so far that the list heard of

    /** The maps are cross-linked and `resident` is the exact byte sum, within the budget. */
    ghost predicate Valid()
      reads this
    {
      CrossLinked(entries, byRecency, recency, tick) && resident == Total(recency) <= maxBytes
    }

    constructor (maxBytes: nat)
      ensures Valid() && recency == trace == [] && this.maxBytes == maxBytes
      ensures entries == map[] && hits == misses == bytesFetched == evictions == 0
    {
      this.maxBytes := maxBytes;
      entries, byRecency, resident, tick, recency, trace := map[], map[], 0, 0, [], [];
      hits, misses, bytesFetched, evictions := 0, 0, 0, 0;
    }

    /** A hit makes the range the most recent one; a miss changes nothing. */
    method Get(key: Range) returns (hit: Option<seq<byte>>)
      requires Valid()
      modifies this`entries, this`byRecency, this`tick, this`hits, this`recency, this`trace
      ensures Valid()
      ensures key !in old(entries) ==> hit == None && unchanged(this)
      ensures key in old(entries) ==>
                && hit == Some(old(entries[key].bytes)) && hits == old(hits) + 1
                && trace == old(trace) + [Item(key, |hit.value|)]
                && recency == Touched(old(recency), Item(key, |hit.value|), maxBytes) && |recency| == |old(recency)|
                && entries.Keys == old(entries.Keys) && forall k :: k in entries ==> entries[k].bytes == old(entries)[k].bytes
    {
      hide CrossLinked, Total, Without, Warm, Touched;
      if key !in entries {
        return None;
      }
      var found := entries[key];
      RemoveKeeps(entries, byRecency, recency, tick, key);
      ghost var x := Item(key, |found.bytes|);
      AddKeeps(entries - {key}, byRecency - {found.tick}, Without(recency, x), tick, key, found.bytes);
      assert (entries - {key})[key := Cached(found.bytes, tick + 1)] == entries[key := Cached(found.bytes, tick + 1)];
      TouchedResident(recency, x, maxBytes);
      recency := Without(recency, x) + [x];
      byRecency := byRecency - {found.tick};
      tick := tick + 1;
      byRecency := byRecency[tick := key];
      entries := entries[key := Cached(found.bytes, tick)];
      hits, trace := hits + 1, trace + [x];
      hit := Some(found.bytes);
    }

    /** Evict the coldest ranges until `size` more bytes fit. */
    method MakeRoom(size: nat)
      requires CrossLinked(entries, byRecency, recency, tick) && size <= maxBytes
      requires resident + size <= maxBytes || resident == Total(recency)
      modifies this`entries, this`byRecency, this`resident, this`evictions, this`recency
      ensures CrossLinked(entries, byRecency, recency, tick)
      ensures old(resident) + size <= maxBytes ==> unchanged(this)
      ensures old(resident) + size > maxBytes ==> resident == Total(recency) && recency == Warm(old(recency), maxBytes - size)
      ensures resident + size <= maxBytes
      ensures evictions - old(evictions) == |old(recency)| - |recency|
      ensures forall k :: k in entries ==> k in old(entries) && entries[k].bytes == old(entries)[k].bytes
    {
      hide CrossLinked, Total, Warm;
      if resident + size <= maxBytes {
        return;
      }
      ghost var start := entries;
      while resident + size > maxBytes
        invariant CrossLinked(entries, byRecency, recency, tick)
        invariant resident == Total(recency) && Warm(recency, maxBytes - size) == Warm(old(recency), maxBytes - size)
        invariant evictions - old(evictions) == |old(recency)| - |recency|
        invariant forall k :: k in entries ==> k in start && entries[k].bytes == start[k].bytes
        decreases |recency|
      {
        SomethingToEvict(entries, byRecency, recency, tick, maxBytes - size);
        if byRecency == map[] {
          assert false;
          break;
        }
        var victimTick :| victimTick in byRecency && forall t :: t in byRecency ==> victimTick <= t;
        EvictKeeps(entries, byRecency, recency, tick, victimTick);
        var victim := byRecency[victimTick];
        byRecency := byRecency - {victimTick};
        if victim in entries {
          var evicted := entries[victim];
          entries := entries - {victim};
          assert |evicted.bytes| <= resident;
          resident := resident - Min(|evicted.bytes|, resident);
          evictions := evictions + 1;
          recency := recency[1..];
        }
      }
      WarmFits(recency, maxBytes - size);
    }

    /** Remember a range. The recency list moves as `Touched` says unless a resident range
        comes back with another length; then the byte counter stays exact exactly when the
        range grew and was alone in the cache. */
    method Insert(key: Range, bytes: seq<byte>)
      requires Valid()
      modifies this`entries, this`byRecency, this`tick, this`resident, this`evictions, this`recency, this`trace
      ensures trace == old(trace) + [Item(key, |bytes|)]
      ensures |bytes| > maxBytes ==> Valid() && entries == old(entries) && recency == old(recency) && tick == old(tick)
      ensures key in old(entries) && |old(entries[key].bytes)| != |bytes| && |bytes| <= maxBytes ==>
                (Valid() <==> |bytes| > |old(entries[key].bytes)| && old(resident) == |old(entries[key].bytes)|)
      ensures (key in old(entries) ==> |old(entries[key].bytes)| == |bytes|) ==>
                && Valid() && recency == Touched(old(recency), Item(key, |bytes|), maxBytes)
                && evictions - old(evictions) ==
                   |old(recency)| + (if key in old(entries) || |bytes| > maxBytes then 0 else 1) - |recency|
      ensures |bytes| <= maxBytes ==> key in entries && entries[key].bytes == bytes
      ensures forall k :: k in entries ==>
                (k == key && |bytes| <= maxBytes && entries[k].bytes == bytes)
                || (k in old(entries) && entries[k].bytes == old(entries)[k].bytes)
    {
      hide CrossLinked, Total, Without, Warm;
      var size := |bytes|;
      trace := trace + [Item(key, size)];
      if size > maxBytes {
        OversizedIsAbsent(recency, Item(key, size), maxBytes);
        return;
      }
      ghost var x, known, was := Item(key, size), key in entries, resident;
      ghost var exact := known ==> |entries[key].bytes| == size;
      if key in entries {
        var replaced := entries[key];
        RemoveKeeps(entries, byRecency, recency, tick, key);
        recency := Without(recency, Item(key, |replaced.bytes|));
        entries := entries - {key};
        byRecency := byRecency - {replaced.tick};
        resident := resident - Min(size, resident);
      } else {
        UnknownIsAbsent(entries, byRecency, recency, tick, x);
      }
      WarmFits(recency, maxBytes - size);
      assert known ==> resident + size <= maxBytes;
      MakeRoom(size);
      AddKeeps(entries, byRecency, recency, tick, key, bytes);
      recency := recency + [x];
      tick := tick + 1;
      byRecency := byRecency[tick := key];
      entries := entries[key := Cached(bytes, tick)];
      resident := resident + size;
    }
  }

  lemma {:induction false} OversizedIsAbsent(list: seq<Item>, x: Item, budget: nat)
    requires Total(list) <= budget < x.size
    ensures x !in list
  {
    if list != [] {
      OversizedIsAbsent(list[1..], x, budget);
    }
  }

  // ---- Fetching through the cache ----------------------------------------------------------------------

  /** What the immutable object store answers for each range; a range it does not have fails. */
  type Store = map<Range, seq<byte>>

  datatype FetchError = NotFound

  function StoreRange(store: Store, key: Range): Result<seq<byte>, FetchError> {
    if key in store then Ok(store[key]) else Err(NotFound)
  }

  /** The last touch of `key` is at `i`, and everything admissible touched since fits beside it. */
  predicate StillWarm(trace: seq<Item>, i: int, key: Range, budget: nat) {
    && 0 <= i < |trace| && trace[i].key == key && trace[i] !in trace[i + 1..]
    && trace[i].size + Total(Stack(trace[i + 1..], budget)) <= budget
  }

  lemma {:induction false} LastTouch(trace: seq<Item>, x: Item) returns (i: nat)
    requires x in trace
    ensures i < |trace| && trace[i] == x && x !in trace[i + 1..]
  {
    if trace[|trace| - 1] == x {
      i := |trace| - 1;
    } else {
      var init := trace[..|trace| - 1];
      i := LastTouch(init, x);
      assert trace[i + 1..] == init[i + 1..] + [trace[|trace| - 1]];
    }
  }

  lemma LaterIsIn(trace: seq<Item>, i: nat, j: nat)
    requires i < j < |trace|
    ensures trace[j] in trace[i + 1..]
  {
    assert trace[i + 1..][j - i - 1] == trace[j];
  }

  lemma NothingLater(trace: seq<Item>, i: nat)
    requires i < |trace| && trace[i] !in trace[i + 1..]
    ensures forall j :: i < j < |trace| ==> trace[j] != trace[i]
  {
    forall j | i < j < |trace|
      ensures trace[j] != trace[i]
    {
      LaterIsIn(trace, i, j);
    }
  }

  lemma LinkedKeys(entries: Entries, byRecency: Ticks, recency: seq<Item>, tick: nat, key: Range)
    requires CrossLinked(entries, byRecency, recency, tick)
    ensures key in entries <==> exists x :: x in recency && x.key == key
    ensures key in entries ==> Item(key, |entries[key].bytes|) in recency
  {
    forall i | 0 <= i < |recency|
      ensures recency[i].key in entries
    {
      assert IsLinked(entries, byRecency, recency[i], tick);
    }
  }

  /** Everything cached is what the store answers. */
  ghost predicate HoldsOnly(entries: Entries, store: Store) {
    forall k :: k in entries ==> k in store && store[k] == entries[k].bytes
  }

  ghost predicate CameFrom(trace: seq<Item>, store: Store) {
    forall x :: x in trace ==> x.key in store && x.size == |store[x.key]|
  }

  lemma CameFromSnoc(trace: seq<Item>, store: Store, x: Item)
    requires CameFrom(trace, store) && x.key in store && x.size == |store[x.key]|
    ensures CameFrom(trace + [x], store)
  {
  }

  class RangeFetcher {
    const store: Store
    const path: string
    const cache: ByteCache

    constructor (store: Store, path: string, cache: ByteCache)
      ensures this.store == store && this.path == path && this.cache == cache
    {
      this.store, this.path, this.cache := store, path, cache;
    }

    /** The cache holds the store's own bytes, as the fetches so far left it. */
    ghost predicate Coherent()
      reads cache
    {
      && cache.Valid() && cache.recency == After(cache.trace, cache.maxBytes)
      && HoldsOnly(cache.entries, store) && CameFrom(cache.trace, store)
    }

    /** At every moment a range is in the cache exactly when it has been touched, and fits the
        budget together with every admissible range touched since its last touch. */
    lemma InCacheExactly(key: Range)
      requires Coherent()
      ensures key in cache.entries <==> exists i :: StillWarm(cache.trace, i, key, cache.maxBytes)
    {
      hide Total, Stack;
      var trace, budget := cache.trace, cache.maxBytes;
      LinkedKeys(cache.entries, cache.byRecency, cache.recency, cache.tick, key);
      if key in store && Item(key, |store[key]|) in trace {
        var i := LastTouch(trace, Item(key, |store[key]|));
        ResidentExactly(trace, i, budget);
        assert key in cache.entries <==> StillWarm(trace, i, key, budget);
        forall j | StillWarm(trace, j, key, budget)
          ensures j == i
        {
          assert trace[j] in trace;
          NothingLater(trace, i);
          NothingLater(trace, j);
        }
      } else {
        assert forall i :: 0 <= i < |trace| ==> trace[i] in trace;
        if key in store {
          UntouchedIsAbsent(trace, Item(key, |store[key]|), budget);
        }
      }
    }

    /** Through the cache or past it, a fetch returns the store's own bytes, and touches the
        recency list the same way. */
    method FetchRange(start: nat, end: nat) returns (r: Result<seq<byte>, FetchError>)
      requires Coherent()
      modifies cache
      ensures Coherent() && r == StoreRange(store, Range(path, start, end))
      ensures cache.trace == old(cache.trace) + if r.Ok? then [Item(Range(path, start, end), |r.value|)] else []
      ensures r.Ok? ==> cache.recency == Touched(old(cache.recency), Item(Range(path, start, end), |r.value|), cache.maxBytes)
      ensures r.Err? ==> cache.recency == old(cache.recency) && cache.entries == old(cache.entries)
      ensures cache.hits - old(cache.hits) + cache.misses - old(cache.misses) == 1
      ensures cache.misses == old(cache.misses) + 1 <==> Range(path, start, end) !in old(cache.entries)
      ensures cache.evictions - old(cache.evictions) ==
              |old(cache.recency)| - |cache.recency|
              + (if r.Ok? && |r.value| <= cache.maxBytes && Range(path, start, end) !in old(cache.entries) then 1 else 0)
      ensures cache.bytesFetched - old(cache.bytesFetched) ==
              if r.Ok? && Range(path, start, end) !in old(cache.entries) then |r.value| else 0
    {
      hide CrossLinked, Total, Touched, After, CameFrom;
      var key := Range(path, start, end);
      if key in store {
        AfterSnoc(cache.trace, Item(key, |store[key]|), cache.maxBytes);
        CameFromSnoc(cache.trace, store, Item(key, |store[key]|));
      }
      var hit := cache.Get(key);
      if hit.Some? {
        return Ok(hit.value);
      }
      cache.misses := cache.misses + 1;
      if key !in store {
        return Err(NotFound);
      }
      var bytes := store[key];
      cache.bytesFetched := cache.bytesFetched + |bytes|;
      cache.Insert(key, bytes);
      r := Ok(bytes);
    }
  }
}
