/** Inputs that repeat are compressed: with any period that the offsets of the format can bridge. */
module LzfPeriod {
  import opened Bytes
  import opened LzfFormat
  import opened LzfMatcher
  import opened LzfCompressor
  import opened LzfGreedy

  // ----- the inputs -----

  predicate Periodic(input: seq<byte>, n: nat, q: nat) {
    n <= |input| && forall k :: q <= k < n ==> input[k] == input[k - q]
  }

  /** The position from 1 to q that looks like position i. */
  function Phase(i: nat, q: nat): (r: nat)
    requires i >= 1 && q >= 1
    ensures 1 <= r <= q && r <= i
    ensures i <= q ==> r == i
    ensures q < i <= 2 * q ==> r == i - q
  {
    if i <= q then i else Phase(i - q, q)
  }

  /** The three bytes from each of the positions 1 to q have a slot of their own. */
  ghost predicate SlotsApart(input: seq<byte>, q: nat)
    requires q + 2 < |input|
  {
    forall r, r' :: 1 <= r <= q && 1 <= r' <= q && SlotAt(input, r) == SlotAt(input, r') ==> r == r'
  }

  /** What is entered behind a copy, where the bytes look like those from k on, does not take the slot of a
      position r that looks different. */
  predicate Harmless(input: seq<byte>, q: nat, k: nat, r: nat)
    requires 1 <= k <= q && 1 <= r <= q && q + 3 < |input|
  {
    && (Slot(0, ByteOr(input[k], input[k + 1]), input[k + 2]) == SlotAt(input, r) ==> r == k)
    && (Slot(ByteOr(input[k], input[k + 1]), input[k + 2], input[k + 3]) == SlotAt(input, r) ==> r == Phase(k + 1, q))
  }

  ghost predicate ReentryIsHarmless(input: seq<byte>, q: nat)
    requires q >= 1 && q + 3 < |input|
  {
    forall k, r :: 1 <= k <= q && 1 <= r <= q ==> Harmless(input, q, k, r)
  }

  ghost predicate Repeats(input: seq<byte>, n: nat, q: nat) {
    && 1 <= q && 2 * q + 266 <= n && Periodic(input, n, q) && SlotsApart(input, q) && ReentryIsHarmless(input, q)
  }

  lemma RepeatsSize(input: seq<byte>, n: nat, q: nat)
    requires n <= |input| && Repeats(input, n, q)
    ensures 1 <= q && 2 * q + 266 <= n
  {
  }

  // ----- phases -----

  lemma {:induction false} PhaseNext(i: nat, q: nat)
    requires i >= 1 && q >= 1
    ensures Phase(i + 1, q) == Phase(Phase(i, q) + 1, q)
    ensures Phase(i + q, q) == Phase(i, q)
  {
    if i > q { PhaseNext(i - q, q); }
  }

  lemma {:induction false} PhaseSame(input: seq<byte>, n: nat, q: nat, i: nat, k: nat)
    requires q >= 1 && Periodic(input, n, q) && i >= 1 && i + k < n
    ensures input[i + k] == input[Phase(i, q) + k]
    decreases i
  {
    if i > q {
      PhaseSame(input, n, q, i - q, k);
      assert input[i + k] == input[i + k - q];
    }
  }

  lemma PhaseSlot(input: seq<byte>, n: nat, q: nat, i: nat)
    requires q >= 1 && Periodic(input, n, q) && i >= 1 && i + 2 < n
    ensures SlotAt(input, i) == SlotAt(input, Phase(i, q))
  {
    hide Slot, Periodic;
    PhaseSame(input, n, q, i, 0);
    PhaseSame(input, n, q, i, 1);
    PhaseSame(input, n, q, i, 2);
  }

  // ----- the entries -----

  /** Every position from 1 to q that has been passed has an entry that looks like it; the others none. */
  ghost predicate Entries(input: seq<byte>, n: nat, q: nat, h: seq<Item>)
    requires q + 2 < n <= |input|
  {
    forall r :: 1 <= r <= q ==>
      var p := LastUnder(input, n, h, SlotAt(input, r));
      if r < Span(h) then 1 <= p < Span(h) && q >= 1 && Phase(p, q) == r else p == 0
  }

  /** The literal bytes at the end are all entered. */
  ghost predicate Recent(input: seq<byte>, n: nat, q: nat, h: seq<Item>)
    requires 1 <= q && q + 2 < n <= |input|
  {
    forall j :: 1 <= j < Span(h) <= j + Trailing(h) ==> LastUnder(input, n, h, SlotAt(input, Phase(j, q))) >= j
  }

  lemma EntriesAfterLit(input: seq<byte>, n: nat, q: nat, h: seq<Item>)
    requires n <= |input| && Repeats(input, n, q) && Entries(input, n, q, h) && Recent(input, n, q, h)
    requires 1 <= Span(h) && Span(h) + 2 < n
    ensures Entries(input, n, q, h + [Lit]) && Recent(input, n, q, h + [Lit])
  {
    hide Slot, SlotAt, LastUnder, Repeats, Span, Phase, Trailing;
    RepeatsSize(input, n, q);
    var i := Span(h);
    ItemCounts(h, Lit);
    forall r | 1 <= r <= q
      ensures LastUnder(input, n, h + [Lit], SlotAt(input, r)) ==
              if r == Phase(i, q) then i else LastUnder(input, n, h, SlotAt(input, r))
    {
      LastAfterLit(input, n, h, SlotAt(input, r));
      SlotIsPhase(input, n, q, i, r);
    }
  }

  /** The entry of slot s after a copy, in short. */
  lemma EntryAfterCopy(input: seq<byte>, n: nat, q: nat, h: seq<Item>, item: Item, r: nat)
    requires n <= |input| && Repeats(input, n, q) && 1 <= r <= q
    requires 1 <= Span(h) && Span(h) + 2 < n && item.Copy? && item.count >= 3
    ensures var p, e := LastUnder(input, n, h + [item], SlotAt(input, r)), Span(h) + item.count;
            || (1 <= p < e && Phase(p, q) == r)
            || p == LastUnder(input, n, h, SlotAt(input, r))
  {
    hide Slot, SlotAt, LastUnder, Repeats, Span, ByteOr, Phase;
    RepeatsSize(input, n, q);
    var i, e := Span(h), Span(h) + item.count;
    LastAfterCopy(input, n, h, item.offset, item.count, SlotAt(input, r));
    SlotIsPhase(input, n, q, i, r);
    if e + 2 < n {
      ReentrySlots(input, n, q, e, r);
    }
  }

  lemma SlotIsPhase(input: seq<byte>, n: nat, q: nat, i: nat, r: nat)
    requires n <= |input| && Repeats(input, n, q) && 1 <= i && i + 2 < n && 1 <= r <= q
    ensures SlotAt(input, r) == SlotAt(input, i) <==> r == Phase(i, q)
  {
    hide SlotAt, Phase, ReentryIsHarmless;
    PhaseSlot(input, n, q, i);
  }

  lemma EntriesAfterCopy(input: seq<byte>, n: nat, q: nat, h: seq<Item>, item: Item)
    requires n <= |input| && Repeats(input, n, q) && Entries(input, n, q, h)
    requires q < Span(h) && Span(h) + 2 < n && item.Copy? && item.count >= 3
    ensures Entries(input, n, q, h + [item]) && Recent(input, n, q, h + [item])
  {
    hide SlotAt, LastUnder, Repeats, Span, Phase;
    RepeatsSize(input, n, q);
    ItemCounts(h, item);
    forall r | 1 <= r <= q
      ensures var p := LastUnder(input, n, h + [item], SlotAt(input, r)); 1 <= p < Span(h) + item.count && Phase(p, q) == r
    {
      EntryAfterCopy(input, n, q, h, item, r);
    }
  }

  lemma HarmlessAt(input: seq<byte>, q: nat, k: nat, r: nat, a: byte, b: byte, c: byte, d: byte)
    requires q >= 1 && q + 3 < |input| && ReentryIsHarmless(input, q) && 1 <= k <= q && 1 <= r <= q
    requires a == input[k] && b == input[k + 1] && c == input[k + 2]
    ensures Slot(0, ByteOr(a, b), c) == SlotAt(input, r) ==> r == k
    ensures d == input[k + 3] && Slot(ByteOr(a, b), c, d) == SlotAt(input, r) ==> r == Phase(k + 1, q)
  {
    hide Slot, SlotAt, ByteOr, Phase;
    assert Harmless(input, q, k, r);
  }

  lemma ReentrySlots(input: seq<byte>, n: nat, q: nat, e: nat, r: nat)
    requires n <= |input| && Repeats(input, n, q) && 3 <= e && e + 2 < n && 1 <= r <= q
    ensures Slot(0, ByteOr(input[e - 2], input[e - 1]), input[e]) == SlotAt(input, r) ==> Phase(e - 2, q) == r
    ensures Slot(ByteOr(input[e - 2], input[e - 1]), input[e], input[e + 1]) == SlotAt(input, r) ==> Phase(e - 1, q) == r
  {
    hide Slot, SlotAt, Periodic, ByteOr, SlotsApart, ReentryIsHarmless, Phase;
    var k := Phase(e - 2, q);
    PhaseSame(input, n, q, e - 2, 0);
    PhaseSame(input, n, q, e - 2, 1);
    PhaseSame(input, n, q, e - 2, 2);
    PhaseSame(input, n, q, e - 2, 3);
    PhaseNext(e - 2, q);
    HarmlessAt(input, q, k, r, input[e - 2], input[e - 1], input[e], input[e + 1]);
  }

  // ----- the items -----

  /** From the second period on the next item is a copy, as long as may be, or a literal byte far behind the
      copies before it or at the end of the input. */
  lemma NextItem(input: seq<byte>, n: nat, q: nat, h: seq<Item>) returns (item: Item)
    requires n <= |input| && Repeats(input, n, q) && q <= 8192 && Entries(input, n, q, h) && Recent(input, n, q, h)
    requires q < Span(h) && Span(h) + 2 < n
    ensures RightItem(input, n, h, item)
    ensures item.Copy? ==> Span(h) + 4 < n && item.count == if n - Span(h) - 2 > 264 then 264 else n - Span(h) - 2
    ensures item.Lit? ==> Span(h) + 4 >= n || (Span(h) > 2 * q && Trailing(h) < q)
  {
    hide Repeats, Span, Phase, Trailing, Entry, Longest, Entries, Recent;
    RepeatsSize(input, n, q);
    var i := Span(h);
    var p, max := Entry(input, n, h), if n - i - 2 > 264 then 264 else n - i - 2;
    item := Lit;
    if i + 4 < n {
      EntryIsNear(input, n, q, h);
      LooksAlike(input, n, q, p, i, max);
      LooksAlike(input, n, q, p, i, 3);
      if i - p <= 8192 {
        item := Copy(i - p - 1, max);
        assert Longest(input, n, p, i, max) by { LongestWhenAlike(input, n, p, i, max); }
      }
    }
  }

  lemma LongestWhenAlike(input: seq<byte>, n: nat, p: nat, i: nat, max: nat)
    requires p < i && i + 4 < n <= |input| && max == (if n - i - 2 > 264 then 264 else n - i - 2)
    requires input[p..p + max] == input[i..i + max]
    ensures Longest(input, n, p, i, max)
  {
  }

  lemma EntryIsNear(input: seq<byte>, n: nat, q: nat, h: seq<Item>)
    requires n <= |input| && Repeats(input, n, q) && Entries(input, n, q, h) && Recent(input, n, q, h)
    requires q < Span(h) && Span(h) + 4 < n
    ensures var i, p := Span(h), Entry(input, n, h);
            && 1 <= p < i && Phase(p, q) == Phase(i, q)
            && (i <= 2 * q || q <= Trailing(h) ==> i - q <= p)
  {
    hide SlotAt, LastUnder, Repeats, Span, Phase, Trailing;
    RepeatsSize(input, n, q);
    var i := Span(h);
    SlotIsPhase(input, n, q, i, Phase(i, q));
    PhaseNext(i - q, q);
  }

  lemma LooksAlike(input: seq<byte>, n: nat, q: nat, p: nat, i: nat, count: nat)
    requires n <= |input| && Repeats(input, n, q) && 1 <= p < i && i + count < n && Phase(p, q) == Phase(i, q)
    ensures input[p..p + count] == input[i..i + count]
  {
    hide SlotsApart, ReentryIsHarmless, Periodic, Phase;
    var a, b := input[p..p + count], input[i..i + count];
    forall k | 0 <= k < count ensures a[k] == b[k] {
      PhaseSame(input, n, q, p, k);
      PhaseSame(input, n, q, i, k);
    }
  }

  /** In the first period nothing has been entered yet that looks like the next position. */
  lemma LiteralIsRight(input: seq<byte>, n: nat, q: nat, h: seq<Item>)
    requires n <= |input| && Repeats(input, n, q) && Entries(input, n, q, h) && 1 <= Span(h) <= q
    ensures RightItem(input, n, h, Lit)
  {
    hide SlotAt, LastUnder, Repeats, Span, Longest;
    RepeatsSize(input, n, q);
  }

  // ----- the whole input -----

  ghost predicate Good(input: seq<byte>, n: nat, q: nat, h: seq<Item>)
    requires 1 <= q && q + 2 < n <= |input|
  {
    Greedy(input, n, h) && Roomy(n, h) && Entries(input, n, q, h) && Recent(input, n, q, h)
  }

  lemma GoodMore(input: seq<byte>, n: nat, q: nat, h: seq<Item>, item: Item)
    requires n <= |input| && Repeats(input, n, q) && Good(input, n, q, h) && 1 <= Span(h) && Span(h) + 2 < n
    requires RightItem(input, n, h, item) && HasRoom(n, h, item) && (item.Copy? ==> q < Span(h) && item.count >= 3)
    ensures Good(input, n, q, h + [item])
  {
    hide Repeats, Greedy, Roomy, Entries, Recent, RightItem, HasRoom, Span;
    GreedyMore(input, n, h, item);
    if item.Lit? {
      EntriesAfterLit(input, n, q, h);
    } else {
      EntriesAfterCopy(input, n, q, h, item);
    }
  }

  lemma FirstItem(input: seq<byte>, n: nat, q: nat)
    requires n <= |input| && Repeats(input, n, q)
    ensures Good(input, n, q, [Lit]) && Span([Lit]) == Trailing([Lit]) == 1 && Index([Lit]) == 6
  {
    hide Slot, SlotAt, Repeats;
    RepeatsSize(input, n, q);
    assert [] + [Lit] == [Lit];
    ItemCounts([], Lit);
    GreedyMore(input, n, [], Lit);
    forall r | 1 <= r <= q ensures LastUnder(input, n, [Lit], SlotAt(input, r)) == 0 {
      LastAfterLit(input, n, [], SlotAt(input, r));
    }
  }

  /** Up to the position q + 1 all bytes are literal. */
  lemma {:induction false} FirstPeriod(input: seq<byte>, n: nat, q: nat, k: nat) returns (h: seq<Item>)
    requires n <= |input| && Repeats(input, n, q) && 1 <= k <= q + 1
    ensures 2 * q + 266 <= n && 1 <= q && Good(input, n, q, h)
    ensures Span(h) == Trailing(h) == k && Index(h) == 5 + k + k / 32
    decreases k
  {
    hide Repeats, Good, RightItem, Span, Trailing, Index;
    RepeatsSize(input, n, q);
    if k == 1 {
      FirstItem(input, n, q);
      h := [Lit];
    } else {
      var g := FirstPeriod(input, n, q, k - 1);
      LiteralIsRight(input, n, q, g) by { GoodHas(input, n, q, g); }
      ItemCounts(g, Lit);
      GoodMore(input, n, q, g, Lit);
      h := g + [Lit];
    }
  }

  lemma GoodHas(input: seq<byte>, n: nat, q: nat, h: seq<Item>)
    requires 1 <= q && q + 2 < n <= |input| && Good(input, n, q, h)
    ensures Greedy(input, n, h) && Roomy(n, h) && Entries(input, n, q, h) && Recent(input, n, q, h)
  {
  }

  /** In the second period every item is a copy of 264 bytes, which saves 261 of them. */
  lemma {:induction false} SecondPeriod(input: seq<byte>, n: nat, q: nat, g: seq<Item>, t: nat) returns (h: seq<Item>, t': nat)
    requires n <= |input| && Repeats(input, n, q) && q <= 8192 && 2 * q + 266 <= n && 1 <= q && Good(input, n, q, g)
    requires Span(g) == q + 1 + 264 * t && (t > 0 ==> Trailing(g) == 0)
    requires t == 0 ==> Trailing(g) == q + 1 && Index(g) == Span(g) + 5 + (q + 1) / 32
    requires t > 0 ==> Index(g) <= Span(g) + 5 + (q + 32) / 32 - 261 * t
    requires Span(g) <= n - 2
    ensures Good(input, n, q, h) && 2 * q < Span(h) <= n - 2 && Span(h) == q + 1 + 264 * t' && Trailing(h) == 0 && t' >= 1
    ensures Index(h) <= Span(h) + 5 + (q + 32) / 32 - 261 * t'
    decreases n - Span(g)
  {
    hide Repeats, Good, RightItem, Span, Trailing, Index;
    if Span(g) > 2 * q {
      h, t' := g, t;
    } else {
      var item := NextItem(input, n, q, g) by { GoodHas(input, n, q, g); }
      ItemCounts(g, item);
      GoodMore(input, n, q, g, item);
      h, t' := SecondPeriod(input, n, q, g + [item], t + 1);
    }
  }

  /** After that copies make up for the literal bytes between them. */
  lemma {:induction false} LaterPeriods(input: seq<byte>, n: nat, q: nat, g: seq<Item>, t: nat) returns (h: seq<Item>)
    requires n <= |input| && Repeats(input, n, q) && q <= 8192 && 2 * q + 266 <= n && 1 <= q && Good(input, n, q, g)
    requires 2 * q < Span(g) <= n - 2 && t >= 1 && q <= 264 * t
    requires Trailing(g) <= q + (if Span(g) + 4 <= n then 0 else Span(g) + 4 - n)
    requires Index(g) <= Span(g) + 5 + (q + 32) / 32 + Trailing(g) / 32 - 261 * t
    ensures Good(input, n, q, h) && Span(h) == n - 2 && Index(h) <= n + 10 - 244 * t
    decreases n - Span(g)
  {
    hide Repeats, Good, RightItem, Span, Trailing, Index;
    if Span(g) == n - 2 {
      h := g;
    } else {
      var item := NextItem(input, n, q, g) by { GoodHas(input, n, q, g); }
      ItemCounts(g, item);
      GoodMore(input, n, q, g, item);
      if item.Copy? && item.count < 264 {
        h := g + [item];
      } else {
        h := LaterPeriods(input, n, q, g + [item], t);
      }
    }
  }

  lemma PeriodicFront(input: seq<byte>, n: nat, q: nat) returns (h: seq<Item>, t: nat)
    requires q <= 8192 && 4 < n <= |input| && Repeats(input, n, q)
    ensures Greedy(input, n, h) && Roomy(n, h) && Span(h) == n - 2
    ensures Index(h) <= n + 10 - 244 * t && 1 <= t && q <= 264 * t
  {
    hide Repeats, Good, RightItem, Span, Trailing, Index, Greedy, Roomy, Entries, Recent;
    RepeatsSize(input, n, q);
    var a := FirstPeriod(input, n, q, q + 1);
    var b;
    b, t := SecondPeriod(input, n, q, a, 0);
    h := LaterPeriods(input, n, q, b, t);
    GoodHas(input, n, q, h);
  }

  lemma CopiesOfPeriod(q: nat, t: nat)
    requires q <= 264 * t
    ensures (q + 263) / 264 <= t
  {
  }

  lemma PeriodicItems(input: seq<byte>, n: nat, q: nat) returns (items: seq<Item>)
    requires q <= 8192 && 4 < n <= |input| && Repeats(input, n, q)
    ensures Greedy(input, n, items) && Roomy(n, items) && Span(items) == n
    ensures Index(items) + 244 * ((q + 263) / 264) <= n + 14
  {
    hide Repeats, Span, Trailing, Index, Greedy, Roomy;
    var h, t := PeriodicFront(input, n, q);
    CopiesOfPeriod(q, t);
    TailItems(input, n, h);
    ItemCounts(h, Lit);
    ItemCounts(h + [Lit], Lit);
    items := h + [Lit] + [Lit];
  }

  /** The length of the result is that of the greedy items. */
  lemma SizeOfItems(input: seq<byte>, items: seq<Item>)
    requires Length32(input) < 0x4000_0000 && 4 < Length32(input)
    requires Greedy(input, Length32(input), items) && Roomy(Length32(input), items) && Span(items) == Length32(input)
    ensures Compressed(input).Some?
    ensures |Compressed(input).value| == Index(items) - (if Trailing(items) % 32 == 0 then 1 else 0)
  {
    hide RightItem, Span, Trailing, Index, Compressed, Greedy, Roomy, Unroll;
    SucceedsExactly(input);
    var ts := CompressedIsGreedy(input);
    GreedyIsUnique(input, Length32(input), Unroll(ts), items);
  }

  /** With enough of it, and slots that do not collide, an input of any period up to 8192 is compressed, and
      about twelve thirteenths of a period are saved at least. */
  lemma PeriodicCompresses(input: seq<byte>, q: nat)
    requires q <= 8192 && Length32(input) < 0x4000_0000 && Repeats(input, Length32(input), q)
    ensures Compressed(input).Some?
    ensures |Compressed(input).value| + 244 * ((q + 263) / 264) <= Length32(input) + 14
  {
    hide Repeats, Greedy, Roomy, Span, Index, Compressed;
    RepeatsSize(input, Length32(input), q);
    var items := PeriodicItems(input, Length32(input), q);
    SizeOfItems(input, items);
  }

  /** The letters abc a hundred times over are one such input. */
  lemma LettersRepeat(input: seq<byte>)
    requires |input| == 300 && forall i :: 0 <= i < 300 ==> input[i] == 97 + i % 3
    ensures Compressed(input).Some? && |Compressed(input).value| <= 70
  {
    hide Compressed, SlotsApart, ReentryIsHarmless;
    assert Letters(input);
    LettersAreHarmless(input);
    PeriodicCompresses(input, 3);
  }

  predicate Letters(input: seq<byte>) {
    |input| == 300 && input[1] == input[4] == 98 && input[2] == input[5] == 99 && input[3] == input[6] == 97
  }

  lemma LettersAreHarmless(input: seq<byte>)
    requires |input| == 300 && Letters(input)
    ensures SlotsApart(input, 3) && ReentryIsHarmless(input, 3)
  {
    hide SlotAt, Letters, Harmless;
    LetterSlotsAt(input);
    forall k, r | 1 <= k <= 3 && 1 <= r <= 3 ensures Harmless(input, 3, k, r) {
      LetterHarmless(input, k, r);
    }
  }

  lemma LetterHarmless(input: seq<byte>, k: nat, r: nat)
    requires |input| == 300 && Letters(input) && 1 <= k <= 3 && 1 <= r <= 3
    ensures Harmless(input, 3, k, r)
  {
    hide ByteOr, Slot, SlotAt, Letters, Phase;
    LetterSlotsAt(input);
    LetterReentry(input, k);
    LetterPhase(k);
    assert r == 1 || r == 2 || r == 3;
  }

  lemma LetterPhase(k: nat)
    requires 1 <= k <= 3
    ensures Phase(k + 1, 3) == if k == 3 then 1 else k + 1
  {
  }

  lemma LetterSlotsAt(input: seq<byte>)
    requires Letters(input)
    ensures SlotAt(input, 1) == 29054 && SlotAt(input, 2) == 31863 && SlotAt(input, 3) == 30067
  {
    hide Slot;
    LetterSlots();
  }

  lemma LetterReentry(input: seq<byte>, k: nat)
    requires Letters(input) && 1 <= k <= 3
    ensures Slot(0, ByteOr(input[k], input[k + 1]), input[k + 2]) == 3967 - (if k == 1 then 1 else if k == 2 then 6 else 11)
    ensures Slot(ByteOr(input[k], input[k + 1]), input[k + 2], input[k + 3]) ==
            if k == 1 then 31863 else if k == 2 then 30579 else 29310
  {
    hide Slot, ByteOr;
    LettersOr();
    LetterSlots();
  }

  lemma LetterSlots()
    ensures Slot(98, 99, 97) == 29054 && Slot(99, 97, 98) == 31863 && Slot(97, 98, 99) == 30067
    ensures Slot(0, 99, 97) == 3966 && Slot(0, 99, 98) == 3961 && Slot(0, 99, 99) == 3956
    ensures Slot(99, 98, 99) == 30579 && Slot(99, 99, 97) == 29310
  {
  }

  lemma LettersOr()
    ensures ByteOr(98, 99) == 99 && ByteOr(99, 97) == 99 && ByteOr(97, 98) == 99
  {
    assert Pow2(6) == 64 && Pow2(7) == 128;
    OrSelf(49, 7);
    OrSelf(24, 6);
    assert OrBits(48, 49, 7) == 49 && OrBits(49, 48, 7) == 49;
  }
}
