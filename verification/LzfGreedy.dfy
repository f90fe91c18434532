/**
  What Compress finds, without its hash table and its buffer: the positions that have been entered are
  read off the items emitted so far, every item is the one the latest entry under its slot calls for,
  and there is a result exactly when these items keep within the room that the code allows them.
 */
module LzfGreedy {
  import opened Bytes
  import opened LzfFormat
  import opened LzfMatcher
  import opened LzfCompressor

  /** A token list, with literal runs taken apart into single bytes. */
  datatype Item = Lit | Copy(offset: nat, count: nat)

  function Lits(n: nat): seq<Item> {
    seq(n, _ => Lit)
  }

  function Unroll(ts: seq<Token>): seq<Item> {
    if ts == [] then []
    else
      Unroll(ts[..|ts| - 1]) +
      match ts[|ts| - 1]
      case Literal(bytes) => Lits(|bytes|)
      case Backref(offset, count) => [Copy(offset, count)]
  }

  /** How many bytes the items stand for. */
  function Span(items: seq<Item>): nat {
    if items == [] then 0
    else
      var last := items[|items| - 1];
      Span(items[..|items| - 1]) + if last.Lit? then 1 else last.count
  }

  // ----- the specification -----

  /** The slot of three bytes: ((v >> 8) - v * 5) & 0xffff for the number v that they make. */
  function Slot(a: byte, b: byte, c: byte): nat {
    (a as int * 256 + b as int - 5 * (b as int * 256 + c as int)) % 65536
  }

  function SlotAt(input: seq<byte>, i: nat): nat
    requires i + 2 < |input|
  {
    Slot(input[i], input[i + 1], input[i + 2])
  }

  /** The position last entered under slot s, 0 if none: an item enters the position at which it begins,
      and a copy that ends at e < n - 2 also e - 2 and then e - 1, with the bytes at e - 2 and e - 1 or-ed into
      one (lzf/lzf.go:137). */
  function LastUnder(input: seq<byte>, n: nat, items: seq<Item>, s: nat): nat
    requires n <= |input|
  {
    if items == [] then 0
    else
      var h, e := items[..|items| - 1], Span(items);
      var i := Span(h);
      var reentered := items[|items| - 1].Copy? && 2 <= e && e + 2 < n;
      if reentered && s == Slot(ByteOr(input[e - 2], input[e - 1]), input[e], input[e + 1]) then e - 1
      else if reentered && s == Slot(0, ByteOr(input[e - 2], input[e - 1]), input[e]) then e - 2
      else if i + 2 < n && s == SlotAt(input, i) then i
      else LastUnder(input, n, h, s)
  }

  /** A copy goes on to the first difference, or to 264 bytes, or to two bytes before the end. */
  ghost predicate Longest(input: seq<byte>, n: nat, p: nat, i: nat, count: nat)
    requires p < i && i + 4 < n <= |input|
  {
    var max := if n - i - 2 > 264 then 264 else n - i - 2;
    && 3 <= count <= max && input[p..p + count] == input[i..i + count]
    && (count == max || input[p + count] != input[i + count])
  }

  /** A copy is called for when the latest entry has the same three bytes and is at most 8192 back. */
  ghost predicate Called(input: seq<byte>, n: nat, i: nat, p: nat)
    requires n <= |input|
  {
    i + 4 < n && 0 < p < i && i - p <= 8192 && input[p..p + 3] == input[i..i + 3]
  }

  /** The latest entry under the slot of the three bytes at the end of the items. */
  function Entry(input: seq<byte>, n: nat, items: seq<Item>): nat
    requires n <= |input|
  {
    var i := Span(items);
    if i + 2 < n then LastUnder(input, n, items, SlotAt(input, i)) else 0
  }

  ghost predicate RightItem(input: seq<byte>, n: nat, h: seq<Item>, item: Item)
    requires n <= |input|
  {
    var i, p := Span(h), Entry(input, n, h);
    if Called(input, n, i, p) then item.Copy? && item.offset == i - p - 1 && Longest(input, n, p, i, item.count)
    else item.Lit?
  }

  ghost predicate Greedy(input: seq<byte>, n: nat, items: seq<Item>)
    requires n <= |input|
  {
    forall k :: 0 <= k < |items| ==> RightItem(input, n, items[..k], items[k])
  }

  /** How many literal bytes the items end with. */
  function Trailing(items: seq<Item>): nat {
    if items == [] || items[|items| - 1].Copy? then 0 else 1 + Trailing(items[..|items| - 1])
  }

  /** Where the next byte goes: after the header and the reserved byte 5; each literal is a byte and every
      32nd one more; a copy is two or three, and closes an open literal run with one more. */
  function Index(items: seq<Item>): nat {
    if items == [] then 5
    else
      var h, last := items[..|items| - 1], items[|items| - 1];
      Index(h) +
      match last
      case Lit => if Trailing(h) % 32 == 31 then 2 else 1
      case Copy(_, count) => (if count < 9 then 2 else 3) + if Trailing(h) % 32 == 0 then 0 else 1
  }

  /** The code gives up on a literal with less than four bytes to the length of the input, on a copy with
      none, and at the end when it is past that length. */
  ghost predicate HasRoom(n: nat, h: seq<Item>, item: Item) {
    var closed := if Trailing(h) % 32 == 0 then 1 else 0;
    if Span(h) + 2 < n then (if item.Lit? then Index(h) + 4 < n else Index(h) - closed < n)
    else Span(h) + 2 == n ==> Index(h) - 1 <= n
  }

  ghost predicate Roomy(n: nat, items: seq<Item>) {
    forall k :: 0 <= k < |items| ==> HasRoom(n, items[..k], items[k])
  }

  // ----- items and states of the machine -----

  function History(tokens: seq<Token>, pending: seq<byte>): seq<Item> {
    Unroll(tokens) + Lits(|pending|)
  }

  /** The state of the machine is what its items say. */
  ghost predicate Follows(input: seq<byte>, n: nat, m: Matcher)
    requires Shape(input, n, m)
  {
    var items := History(m.tokens, m.pending);
    && Span(items) == m.iidx
    && Index(items) == Position(m.tokens, m.pending) && |m.pending| == Trailing(items) % 32
    && (forall s :: 0 <= s < TABLE_SIZE ==> m.table[s] == LastUnder(input, n, items, s))
    && (m.iidx == 0 ==> m.hval == input[1])
    && (0 < m.iidx < n - 2 ==> m.hval as int % 0x1_0000 == input[m.iidx] as int * 256 + input[m.iidx + 1] as int)
  }

  lemma LitsMore(n: nat)
    ensures Lits(n + 1) == Lits(n) + [Lit]
  {
  }

  lemma UnrollMore(ts: seq<Token>, t: Token)
    ensures Unroll(ts + [t]) == Unroll(ts) + if t.Literal? then Lits(|t.bytes|) else [Copy(t.offset, t.count)]
  {
    assert (ts + [t])[..|ts|] == ts;
  }

  lemma HistoryOfLiteral(tokens: seq<Token>, pending: seq<byte>, b: byte)
    ensures var (ts, p) := AddByte(tokens, pending, b);
            History(ts, p) == History(tokens, pending) + [Lit]
  {
    hide Unroll;
    LitsMore(|pending|);
    if |pending| + 1 == MAX_LITERAL {
      UnrollMore(tokens, Literal(pending + [b]));
      assert Unroll(tokens) + (Lits(|pending|) + [Lit]) == Unroll(tokens) + Lits(|pending|) + [Lit];
    }
  }

  lemma HistoryOfFlush(tokens: seq<Token>, pending: seq<byte>)
    ensures Unroll(Flush(tokens, pending)) == History(tokens, pending)
  {
    hide Unroll;
    if pending == [] {
      assert Unroll(tokens) + Lits(0) == Unroll(tokens);
    } else {
      UnrollMore(tokens, Literal(pending));
    }
  }

  lemma HistoryOfCopy(tokens: seq<Token>, pending: seq<byte>, offset: nat, count: nat)
    ensures History(Flush(tokens, pending) + [Backref(offset, count)], []) == History(tokens, pending) + [Copy(offset, count)]
  {
    hide Unroll;
    HistoryOfFlush(tokens, pending);
    UnrollMore(Flush(tokens, pending), Backref(offset, count));
    assert Lits(0) == [];
  }

  // ----- the hash -----

  /** The slot depends on the last three bytes shifted in. */
  lemma SlotOfShift(hval: u32, b: byte, x: byte, y: byte)
    requires hval as int % 0x1_0000 == x as int * 256 + y as int
    ensures HashSlot(Shift(hval, b)) == Slot(x, y, b)
    ensures Shift(hval, b) as int % 0x1_0000 == y as int * 256 + b as int
  {
    hide HashSlot, Shift, Slot;
    var q: nat, low: nat := hval / 0x1_0000, x * 256 + y;
    var high: nat, top: nat := q / 0x100, q % 0x100;
    ShiftIs(high, top, low, b, hval);
    SlotOfNumber(top, x, y, b);
    ModMultiple(y * 256 + b, top * 0x100 + x);
  }

  lemma ShiftIs(high: nat, top: nat, low: nat, b: byte, hval: u32)
    requires hval as int == (high * 0x100 + top) * 0x1_0000 + low && top < 0x100 && low < 0x1_0000
    ensures Shift(hval, b) as int == top * 0x100_0000 + low * 0x100 + b as int
  {
    assert hval as int * 256 == high * 0x1_0000_0000 + (top * 0x100_0000 + low * 0x100);
  }

  lemma SlotOfNumber(top: nat, x: byte, y: byte, b: byte)
    requires top < 0x100
    ensures HashSlot(top * 0x100_0000 + x as int * 0x1_0000 + y as int * 0x100 + b as int) == Slot(x, y, b)
  {
    var v: int := top * 0x100_0000 + x as int * 0x1_0000 + y as int * 0x100 + b as int;
    var low: int := y as int * 256 + b as int;
    assert v / 256 == top * 0x1_0000 + x as int * 256 + y as int;
    assert v * 5 == (top * 0x500 + x as int * 5) * 0x1_0000 + low * 5;
    ModMultiple(x as int * 256 + y as int - 5 * low, top - top * 0x500 - x as int * 5);
  }

  lemma ModMultiple(x: int, k: int)
    ensures (x + k * 0x1_0000) % 0x1_0000 == x % 0x1_0000
  {
  }

  /** The two slots of the reinsertion. */
  lemma SlotsOfRehash(a: byte, b: byte, c: byte, d: byte)
    ensures var v := Rehash(a, b, c);
            && HashSlot(v) == Slot(0, ByteOr(a, b), c)
            && HashSlot(Shift(v, d)) == Slot(ByteOr(a, b), c, d)
            && Shift(v, d) as int % 0x1_0000 == c as int * 256 + d as int
  {
    hide ByteOr, HashSlot, Shift;
    var x := ByteOr(a, b);
    SlotOfNumber(0, 0, x, c);
    SlotOfShift(Rehash(a, b, c), d, x, c);
  }

  /** lzf/lzf.go:137 joins two bytes bit by bit. */
  lemma ByteOrAt(a: byte, b: byte, k: nat)
    requires k < 8
    ensures Bit(ByteOr(a, b), k) == if Bit(a, k) == 1 || Bit(b, k) == 1 then 1 else 0
  {
    OrBitsAt(a, b, 8, k);
  }

  // ----- one step -----

  lemma LastAfterLit(input: seq<byte>, n: nat, h: seq<Item>, s: nat)
    requires Span(h) + 2 < n <= |input|
    ensures LastUnder(input, n, h + [Lit], s) ==
            if s == SlotAt(input, Span(h)) then Span(h) else LastUnder(input, n, h, s)
  {
    hide Slot;
    assert (h + [Lit])[..|h|] == h;
  }

  lemma LastAfterCopy(input: seq<byte>, n: nat, h: seq<Item>, offset: nat, count: nat, s: nat)
    requires Span(h) + 2 < n <= |input| && count >= 2
    ensures var i, e := Span(h), Span(h) + count;
            LastUnder(input, n, h + [Copy(offset, count)], s) ==
            if e + 2 < n && s == Slot(ByteOr(input[e - 2], input[e - 1]), input[e], input[e + 1]) then e - 1
            else if e + 2 < n && s == Slot(0, ByteOr(input[e - 2], input[e - 1]), input[e]) then e - 2
            else if s == SlotAt(input, i) then i
            else LastUnder(input, n, h, s)
  {
    hide Slot, ByteOr;
    assert (h + [Copy(offset, count)])[..|h|] == h;
  }

  lemma ItemCounts(h: seq<Item>, item: Item)
    ensures Span(h + [item]) == Span(h) + if item.Lit? then 1 else item.count
    ensures Trailing(h + [item]) == if item.Lit? then 1 + Trailing(h) else 0
    ensures Index(h + [item]) ==
            Index(h) + (if item.Lit? then (if Trailing(h) % 32 == 31 then 2 else 1)
                        else (if item.count < 9 then 2 else 3) + if Trailing(h) % 32 == 0 then 0 else 1)
  {
    assert (h + [item])[..|h|] == h;
  }

  /** What is in the slot of the next three bytes is the entry that the items name. */
  lemma EntryInTable(input: seq<byte>, n: nat, m: Matcher)
    requires Shape(input, n, m) && m.iidx < n - 2 && Follows(input, n, m)
    ensures var hval, h := Shift(m.hval, input[m.iidx + 2]), History(m.tokens, m.pending);
            && m.table[HashSlot(hval)] == Entry(input, n, h)
            && (m.iidx > 0 ==> HashSlot(hval) == SlotAt(input, m.iidx))
            && hval as int % 0x1_0000 == input[m.iidx + 1] as int * 256 + input[m.iidx + 2] as int
    ensures m.iidx == 0 ==> forall s :: 0 <= s < TABLE_SIZE ==> m.table[s] == 0
  {
    hide HashSlot, Shift, LastUnder, Index, Position, Trailing, History, Slot;
    if m.iidx > 0 {
      SlotOfShift(m.hval, input[m.iidx + 2], input[m.iidx], input[m.iidx + 1]);
    } else {
      LowOfShift(input[1], input[2]);
    }
    SlotBelow(input[m.iidx], input[m.iidx + 1], input[m.iidx + 2]);
  }

  lemma LowOfShift(a: byte, b: byte)
    ensures Shift(a, b) as int % 0x1_0000 == a as int * 256 + b as int
  {
  }

  lemma SlotBelow(a: byte, b: byte, c: byte)
    ensures Slot(a, b, c) < TABLE_SIZE
  {
  }

  lemma CalledIsMatch(input: seq<byte>, n: nat, m: Matcher)
    requires Shape(input, n, m) && m.iidx < n - 2 && Follows(input, n, m)
    ensures var p := m.table[HashSlot(Shift(m.hval, input[m.iidx + 2]))];
            && p == Entry(input, n, History(m.tokens, m.pending))
            && (IsMatch(input, n, m.iidx, p) <==> Called(input, n, m.iidx, p))
  {
    hide HashSlot, Shift, LastUnder, Index, Position, Trailing, History, Slot, Span, Follows, Entry;
    EntryInTable(input, n, m);
    var p := m.table[HashSlot(Shift(m.hval, input[m.iidx + 2]))];
    if m.iidx + 4 < n && 0 < p < m.iidx {
      ThreeBytes(input, p, m.iidx);
    }
  }

  lemma ThreeBytes(input: seq<byte>, p: nat, i: nat)
    requires p < i && i + 3 <= |input|
    ensures input[p..p + 3] == input[i..i + 3] <==>
            input[p] == input[i] && input[p + 1] == input[i + 1] && input[p + 2] == input[i + 2]
  {
    var a, b := input[p..p + 3], input[i..i + 3];
    assert a[0] == input[p] && a[1] == input[p + 1] && a[2] == input[p + 2];
    assert b[0] == input[i] && b[1] == input[i + 1] && b[2] == input[i + 2];
  }

  /** Entering the position in the table is entering it in the items. */
  lemma LiteralTable(input: seq<byte>, n: nat, m: Matcher)
    requires Shape(input, n, m) && m.iidx < n - 2 && n < MAX_SIZE && Follows(input, n, m)
    ensures var h := History(m.tokens, m.pending);
            forall s :: 0 <= s < TABLE_SIZE ==>
              m.table[HashSlot(Shift(m.hval, input[m.iidx + 2])) := m.iidx][s] == LastUnder(input, n, h + [Lit], s)
  {
    hide HashSlot, Shift, LastUnder, Index, Position, Trailing, History, Slot, Span, Entry;
    EntryInTable(input, n, m);
    var h := History(m.tokens, m.pending);
    forall s | 0 <= s < TABLE_SIZE
      ensures m.table[HashSlot(Shift(m.hval, input[m.iidx + 2])) := m.iidx][s] == LastUnder(input, n, h + [Lit], s)
    {
      LastAfterLit(input, n, h, s);
    }
  }

  /** What the step does with a literal. */
  lemma LiteralStep(input: seq<byte>, n: nat, m: Matcher)
    requires Shape(input, n, m) && m.iidx < n - 2 && n < MAX_SIZE
    requires !IsMatch(input, n, m.iidx, m.table[HashSlot(Shift(m.hval, input[m.iidx + 2]))])
    ensures var hval, (ts, p) := Shift(m.hval, input[m.iidx + 2]), AddByte(m.tokens, m.pending, input[m.iidx]);
            Step(input, n, m) ==
            if Position(m.tokens, m.pending) >= n - 4 then None
            else Some(Matcher(m.iidx + 1, hval, m.table[HashSlot(hval) := m.iidx], ts, p))
  {
    hide HashSlot, Shift, Position, AddByte, Rehash;
  }

  /** The literal step. */
  lemma LiteralFollows(input: seq<byte>, n: nat, m: Matcher)
    requires Shape(input, n, m) && m.iidx < n - 2 && n < MAX_SIZE && Follows(input, n, m)
    requires !Called(input, n, m.iidx, Entry(input, n, History(m.tokens, m.pending)))
    ensures var h := History(m.tokens, m.pending);
            && RightItem(input, n, h, Lit)
            && (Step(input, n, m).Some? <==> HasRoom(n, h, Lit))
            && (Step(input, n, m).Some? ==>
                  var next := Step(input, n, m).value;
                  Shape(input, n, next) && Follows(input, n, next) && History(next.tokens, next.pending) == h + [Lit])
  {
    hide HashSlot, Shift, LastUnder, Index, Position, Trailing, History, Slot, Span, Entry, Called, AddByte, Step, SlotAt;
    var h := History(m.tokens, m.pending);
    CalledIsMatch(input, n, m);
    EntryInTable(input, n, m);
    LiteralStep(input, n, m);
    StepKeepsShape(input, n, m);
    LiteralTable(input, n, m);
    HistoryOfLiteral(m.tokens, m.pending, input[m.iidx]);
    ItemCounts(h, Lit);
    AddBytePosition(m.tokens, m.pending, input[m.iidx]);
    PendingMore(m.tokens, m.pending, input[m.iidx], Trailing(h));
  }

  lemma PendingMore(tokens: seq<Token>, pending: seq<byte>, b: byte, t: nat)
    requires |pending| == t % 32
    ensures |AddByte(tokens, pending, b).1| == (t + 1) % 32
    ensures AddByte(tokens, pending, b).1 == [] <==> t % 32 == 31
  {
  }

  /** What the table becomes when a copy of length bytes is emitted. */
  function TableAfterMatch(input: seq<byte>, n: nat, m: Matcher, length: nat): seq<u32>
    requires Shape(input, n, m) && m.iidx < n - 2 && n < MAX_SIZE && 3 <= length
  {
    var hval, e := Shift(m.hval, input[m.iidx + 2]), m.iidx + length;
    var table := m.table[HashSlot(hval) := m.iidx];
    if e >= n - 2 then table
    else
      var hval1 := Rehash(input[e - 2], input[e - 1], input[e]);
      table[HashSlot(hval1) := e - 2][HashSlot(Shift(hval1, input[e + 1])) := e - 1]
  }

  function HashAfterMatch(input: seq<byte>, n: nat, m: Matcher, length: nat): u32
    requires Shape(input, n, m) && m.iidx < n - 2 && n < MAX_SIZE && 3 <= length
  {
    var e := m.iidx + length;
    if e >= n - 2 then Shift(m.hval, input[m.iidx + 2])
    else Shift(Rehash(input[e - 2], input[e - 1], input[e]), input[e + 1])
  }

  lemma MatchStep(input: seq<byte>, n: nat, m: Matcher)
    requires Shape(input, n, m) && m.iidx < n - 2 && n < MAX_SIZE
    requires IsMatch(input, n, m.iidx, m.table[HashSlot(Shift(m.hval, input[m.iidx + 2]))])
    ensures var p := m.table[HashSlot(Shift(m.hval, input[m.iidx + 2]))];
            var length := MatchLength(input, m.iidx, p, 2, MaxLength(n, m.iidx));
            Step(input, n, m) ==
            if Position(m.tokens, m.pending) - (if m.pending == [] then 1 else 0) >= n then None
            else Some(Matcher(m.iidx + length, HashAfterMatch(input, n, m, length), TableAfterMatch(input, n, m, length),
                              Flush(m.tokens, m.pending) + [Backref(m.iidx - p - 1, length)], []))
  {
    hide HashSlot, Shift, Position, Rehash, MatchLength, Flush;
  }

  lemma MatchTable(input: seq<byte>, n: nat, m: Matcher, offset: nat, length: nat)
    requires Shape(input, n, m) && m.iidx < n - 2 && n < MAX_SIZE && Follows(input, n, m) && m.iidx > 0 && 3 <= length
    ensures var h := History(m.tokens, m.pending);
            forall s :: 0 <= s < TABLE_SIZE ==>
              TableAfterMatch(input, n, m, length)[s] == LastUnder(input, n, h + [Copy(offset, length)], s)
  {
    hide HashSlot, Shift, LastUnder, Index, Position, Trailing, History, Slot, Span, Entry, Rehash, ByteOr;
    EntryInTable(input, n, m);
    var h, e := History(m.tokens, m.pending), m.iidx + length;
    if e < n - 2 {
      SlotsOfRehash(input[e - 2], input[e - 1], input[e], input[e + 1]);
    }
    forall s | 0 <= s < TABLE_SIZE
      ensures TableAfterMatch(input, n, m, length)[s] == LastUnder(input, n, h + [Copy(offset, length)], s)
    {
      LastAfterCopy(input, n, h, offset, length, s);
    }
  }

  lemma HashFollows(input: seq<byte>, n: nat, m: Matcher, length: nat)
    requires Shape(input, n, m) && m.iidx < n - 2 && n < MAX_SIZE && 3 <= length && m.iidx + length < n - 2
    ensures var e := m.iidx + length;
            HashAfterMatch(input, n, m, length) as int % 0x1_0000 == input[e] as int * 256 + input[e + 1] as int
  {
    hide HashSlot, Shift, Rehash, ByteOr;
    var e := m.iidx + length;
    SlotsOfRehash(input[e - 2], input[e - 1], input[e], input[e + 1]);
  }

  lemma LongestMatch(input: seq<byte>, n: nat, p: nat, i: nat)
    requires n <= |input| && Called(input, n, i, p)
    ensures Longest(input, n, p, i, MatchLength(input, i, p, 2, MaxLength(n, i)))
  {
    hide MatchLength;
    MatchLengthAgrees(input, i, p, 2, MaxLength(n, i));
  }

  /** The step with a match. */
  lemma MatchFollows(input: seq<byte>, n: nat, m: Matcher) returns (item: Item)
    requires Shape(input, n, m) && m.iidx < n - 2 && n < MAX_SIZE && Follows(input, n, m)
    requires Called(input, n, m.iidx, Entry(input, n, History(m.tokens, m.pending)))
    ensures var h := History(m.tokens, m.pending);
            && RightItem(input, n, h, item)
            && (Step(input, n, m).Some? <==> HasRoom(n, h, item))
            && (Step(input, n, m).Some? ==>
                  var next := Step(input, n, m).value;
                  Shape(input, n, next) && Follows(input, n, next) && History(next.tokens, next.pending) == h + [item])
  {
    hide HashSlot, Shift, LastUnder, Index, Position, Trailing, History, Slot, Span, Entry, Flush, Step, SlotAt;
    hide TableAfterMatch, HashAfterMatch, MatchLength, Longest, Called;
    var h := History(m.tokens, m.pending);
    var p := Entry(input, n, h);
    CalledBounds(input, n, m.iidx, p);
    CalledIsMatch(input, n, m);
    LongestMatch(input, n, p, m.iidx);
    MatchStep(input, n, m);
    StepKeepsShape(input, n, m);
    var length := MatchLength(input, m.iidx, p, 2, MaxLength(n, m.iidx));
    item := Copy(m.iidx - p - 1, length);
    MatchTable(input, n, m, item.offset, length);
    HistoryOfCopy(m.tokens, m.pending, item.offset, length);
    ItemCounts(h, item);
    if m.iidx + length < n - 2 {
      HashFollows(input, n, m, length);
    }
    CopyPosition(m.tokens, m.pending, Backref(item.offset, length));
  }

  lemma CalledBounds(input: seq<byte>, n: nat, i: nat, p: nat)
    requires n <= |input| && Called(input, n, i, p)
    ensures 0 < p < i && i - p <= 8192 && i + 4 < n
  {
  }

  lemma CopyPosition(tokens: seq<Token>, pending: seq<byte>, t: Token)
    requires AllWellFormed(tokens) && |pending| < MAX_LITERAL && WellFormed(t) && t.Backref?
    ensures var ts := Flush(tokens, pending) + [t];
            && AllWellFormed(ts)
            && Position(ts, []) == Position(tokens, pending) + (if t.count < 9 then 2 else 3) + if pending == [] then 0 else 1
  {
    hide Encode, EncodeAll, Flush;
    FlushPosition(tokens, pending);
    EncodeAllAppend(Flush(tokens, pending), t);
    EncodeBackref(t);
  }

  /** Each step emits the right item, and gives up exactly when there is no room for it. */
  lemma StepFollows(input: seq<byte>, n: nat, m: Matcher) returns (item: Item)
    requires Shape(input, n, m) && m.iidx < n - 2 && n < MAX_SIZE && Follows(input, n, m)
    ensures var h := History(m.tokens, m.pending);
            && RightItem(input, n, h, item)
            && (Step(input, n, m).Some? <==> HasRoom(n, h, item))
            && (Step(input, n, m).Some? ==>
                  var next := Step(input, n, m).value;
                  Shape(input, n, next) && Follows(input, n, next) && History(next.tokens, next.pending) == h + [item])
  {
    hide Follows, Step, RightItem, HasRoom, Called, Entry, History;
    if Called(input, n, m.iidx, Entry(input, n, History(m.tokens, m.pending))) {
      item := MatchFollows(input, n, m);
    } else {
      LiteralFollows(input, n, m);
      item := Lit;
    }
  }

  // ----- whole runs -----

  lemma LongestIsUnique(input: seq<byte>, n: nat, p: nat, i: nat, c: nat, d: nat)
    requires p < i && i + 4 < n <= |input| && Longest(input, n, p, i, c) && Longest(input, n, p, i, d)
    ensures c <= d
  {
    if d < c {
      SameAt(input, p, i, c, d);
    }
  }

  lemma SameAt(input: seq<byte>, p: nat, i: nat, c: nat, d: nat)
    requires p <= i && d < c && i + c <= |input| && input[p..p + c] == input[i..i + c]
    ensures input[p + d] == input[i + d]
  {
    assert input[p..p + c][d] == input[i..i + c][d];
  }

  lemma RightItemIsUnique(input: seq<byte>, n: nat, h: seq<Item>, a: Item, b: Item)
    requires n <= |input| && RightItem(input, n, h, a) && RightItem(input, n, h, b)
    ensures a == b
  {
    hide Longest, Entry, Span;
    var i, p := Span(h), Entry(input, n, h);
    if Called(input, n, i, p) {
      LongestIsUnique(input, n, p, i, a.count, b.count);
      LongestIsUnique(input, n, p, i, b.count, a.count);
    }
  }

  lemma GreedyMore(input: seq<byte>, n: nat, h: seq<Item>, item: Item)
    requires n <= |input| && Greedy(input, n, h) && RightItem(input, n, h, item)
    ensures Greedy(input, n, h + [item])
    ensures Roomy(n, h) && HasRoom(n, h, item) ==> Roomy(n, h + [item])
  {
    hide RightItem, HasRoom;
    var t := h + [item];
    forall k | 0 <= k < |t|
      ensures RightItem(input, n, t[..k], t[k])
      ensures Roomy(n, h) && HasRoom(n, h, item) ==> HasRoom(n, t[..k], t[k])
    {
      if k < |h| {
        assert t[..k] == h[..k];
      } else {
        assert t[..k] == h;
      }
    }
  }

  ghost predicate Tracks(input: seq<byte>, n: nat, m: Matcher)
    requires Shape(input, n, m)
  {
    var h := History(m.tokens, m.pending);
    Follows(input, n, m) && Greedy(input, n, h) && Roomy(n, h)
  }

  lemma {:induction false} RunTracks(input: seq<byte>, n: nat, m: Matcher)
    requires Shape(input, n, m) && n < MAX_SIZE && Tracks(input, n, m) && Run(input, n, m).Some?
    ensures var f := Run(input, n, m).value; Shape(input, n, f) && Tracks(input, n, f) && f.iidx == n - 2
    decreases n - m.iidx
  {
    hide Follows, Step, RightItem, HasRoom, Greedy, Roomy, History;
    RunKeepsShape(input, n, m);
    if m.iidx < n - 2 {
      var item := StepFollows(input, n, m);
      StepKeepsShape(input, n, m);
      GreedyMore(input, n, History(m.tokens, m.pending), item);
      RunTracks(input, n, Step(input, n, m).value);
    }
  }

  /** A run that has items with room before it goes through them. */
  lemma {:induction false} RunGoesThrough(input: seq<byte>, n: nat, m: Matcher, items: seq<Item>)
    requires Shape(input, n, m) && n < MAX_SIZE && Follows(input, n, m)
    requires Greedy(input, n, items) && Roomy(n, items) && Span(items) == n && History(m.tokens, m.pending) <= items
    ensures Run(input, n, m).Some?
    ensures var f := Run(input, n, m).value;
            Shape(input, n, f) && Follows(input, n, f) && f.iidx == n - 2 && History(f.tokens, f.pending) <= items
    decreases n - m.iidx
  {
    hide Step, RightItem, HasRoom, History, LastUnder, Index, Position, Trailing, Span;
    RunKeepsShape(input, n, m);
    if m.iidx < n - 2 {
      var h := History(m.tokens, m.pending);
      var item := StepFollows(input, n, m);
      assert items[..|items|] == items && items[..|h|] == h;
      RightItemIsUnique(input, n, h, item, items[|h|]);
      assert h + [item] == items[..|h| + 1];
      StepKeepsShape(input, n, m);
      RunGoesThrough(input, n, Step(input, n, m).value, items);
    }
  }

  lemma StartTracks(input: seq<byte>, n: nat)
    requires 4 < n <= |input|
    ensures Shape(input, n, Start(input)) && Tracks(input, n, Start(input)) && History([], []) == []
  {
    assert History([], []) == [];
    EncodeNothing();
  }

  /** The two bytes at the end. */
  lemma TailItems(input: seq<byte>, n: nat, h: seq<Item>)
    requires 4 < n <= |input| && Greedy(input, n, h) && Span(h) == n - 2
    ensures Greedy(input, n, h + [Lit] + [Lit]) && Span(h + [Lit] + [Lit]) == n
    ensures Roomy(n, h) ==> (Roomy(n, h + [Lit] + [Lit]) <==> Index(h) - 1 <= n)
  {
    hide LastUnder, Greedy, Index, Trailing, Span;
    ItemCounts(h, Lit);
    ItemCounts(h + [Lit], Lit);
    GreedyMore(input, n, h, Lit);
    GreedyMore(input, n, h + [Lit], Lit);
    var t := h + [Lit] + [Lit];
    if Roomy(n, t) {
      assert t[..|h|] == h && t[|h|] == Lit;
      assert HasRoom(n, h, Lit);
    }
  }

  /** The items before the last two bytes, as the tokens of a finished run have them. */
  lemma FinishItems(input: seq<byte>, n: nat, m: Matcher)
    requires Shape(input, n, m) && n < MAX_SIZE && m.iidx == n - 2 && Follows(input, n, m)
    ensures var items := History(m.tokens, m.pending) + [Lit] + [Lit];
            && (Finish(input, n, m).Some? <==> Index(History(m.tokens, m.pending)) - 1 <= n)
            && var (ts, p) := AddBytes(m.tokens, m.pending, input[n - 2..n]);
               && AllWellFormed(Flush(ts, p)) && Unroll(Flush(ts, p)) == items
               && |EncodeAll(Flush(ts, p))| == Index(items) - 4 - (if Trailing(items) % 32 == 0 then 1 else 0)
               && (Finish(input, n, m).Some? ==> Finish(input, n, m).value == ToBigEndian(n) + EncodeAll(Flush(ts, p)))
  {
    hide LastUnder, Unroll, Index, Trailing, Position, History, AddByte, AddBytes, EncodeAll, Flush, Span;
    var b, c := input[n - 2], input[n - 1];
    assert input[n - 2..n] == [b, c];
    AddTwoBytes(m.tokens, m.pending, b, c);
    AddBytesWellFormed(m.tokens, m.pending, [b, c]);
    var h := History(m.tokens, m.pending);
    var (ts, p) := AddByte(m.tokens, m.pending, b);
    LiteralCounts(m.tokens, m.pending, b, h);
    LiteralCounts(ts, p, c, h + [Lit]);
    var (us, q) := AddByte(ts, p, c);
    HistoryOfFlush(us, q);
    FlushPosition(us, q);
  }

  lemma LiteralCounts(tokens: seq<Token>, pending: seq<byte>, b: byte, h: seq<Item>)
    requires AllWellFormed(tokens) && |pending| < MAX_LITERAL
    requires h == History(tokens, pending) && Index(h) == Position(tokens, pending) && |pending| == Trailing(h) % 32
    ensures var (ts, p) := AddByte(tokens, pending, b);
            && AllWellFormed(ts) && |p| < MAX_LITERAL
            && History(ts, p) == h + [Lit] && Index(h + [Lit]) == Position(ts, p) && |p| == Trailing(h + [Lit]) % 32
  {
    hide Index, Trailing, Position, History, AddByte, EncodeAll;
    AddBytePosition(tokens, pending, b);
    HistoryOfLiteral(tokens, pending, b);
    ItemCounts(h, Lit);
    PendingMore(tokens, pending, b, Trailing(h));
  }

  /** What a result is: the length and the code of tokens that mean the input and whose items are the
      greedy ones; and how long it is. */
  lemma CompressedIsGreedy(input: seq<byte>) returns (ts: seq<Token>)
    requires Compressed(input).Some?
    ensures var n := Length32(input);
            && AllWellFormed(ts) && Compressed(input).value == ToBigEndian(n) + EncodeAll(ts)
            && Meaning(ts, []) == Some(input[..n])
            && Span(Unroll(ts)) == n && Greedy(input, n, Unroll(ts)) && Roomy(n, Unroll(ts))
            && |Compressed(input).value| == Index(Unroll(ts)) - (if Trailing(Unroll(ts)) % 32 == 0 then 1 else 0)
  {
    hide Run, Finish, Follows, Greedy, Roomy, Unroll, Index, Trailing, History, EncodeAll, Meaning, Span, AddBytes, Flush;
    var n := Length32(input);
    StartTracks(input, n);
    RunTracks(input, n, Start(input));
    var f := Run(input, n, Start(input)).value;
    TrackedSpan(input, n, f);
    FinishItems(input, n, f);
    var (us, p) := AddBytes(f.tokens, f.pending, input[n - 2..n]);
    ts := Flush(us, p);
    TailItems(input, n, History(f.tokens, f.pending));
    var vs := CompressedTokens(input);
    SameCode(ToBigEndian(n), EncodeAll(ts), EncodeAll(vs));
    EncodeAllInjective(ts, vs);
  }

  lemma TrackedSpan(input: seq<byte>, n: nat, m: Matcher)
    requires Shape(input, n, m) && Follows(input, n, m)
    ensures Span(History(m.tokens, m.pending)) == m.iidx
  {
  }

  lemma SameCode(header: seq<byte>, a: seq<byte>, b: seq<byte>)
    requires header + a == header + b
    ensures a == b
  {
    assert (header + a)[|header|..] == a && (header + b)[|header|..] == b;
  }

  lemma {:induction false} SpanGrows(input: seq<byte>, n: nat, items: seq<Item>, k: nat)
    requires n <= |input| && Greedy(input, n, items) && k < |items|
    ensures Span(items[..k]) < Span(items)
  {
    hide RightItem;
    var last := |items| - 1;
    var h := items[..last];
    assert items == h + [items[last]];
    ItemCounts(h, items[last]);
    RightItemCounts(input, n, h, items[last]);
    if k < last {
      assert forall j :: 0 <= j < last ==> h[..j] == items[..j] && h[j] == items[j];
      SpanGrows(input, n, h, k);
      assert h[..k] == items[..k];
    }
  }

  lemma RightItemCounts(input: seq<byte>, n: nat, h: seq<Item>, item: Item)
    requires n <= |input| && RightItem(input, n, h, item)
    ensures item.Copy? ==> item.count >= 3
  {
  }

  /** The greedy items of the whole input are unique. */
  lemma GreedyIsUnique(input: seq<byte>, n: nat, items: seq<Item>, other: seq<Item>)
    requires n <= |input| && Greedy(input, n, items) && Greedy(input, n, other) && Span(items) == Span(other)
    ensures items == other
  {
    hide Greedy, Span;
    var k := if |items| < |other| then |items| else |other|;
    GreedyPrefixes(input, n, items, other, k);
    assert items[..|items|] == items && other[..|other|] == other;
    if k < |items| { SpanGrows(input, n, items, k); }
    if k < |other| { SpanGrows(input, n, other, k); }
  }

  lemma {:induction false} GreedyPrefixes(input: seq<byte>, n: nat, items: seq<Item>, other: seq<Item>, k: nat)
    requires n <= |input| && Greedy(input, n, items) && Greedy(input, n, other) && k <= |items| && k <= |other|
    ensures items[..k] == other[..k]
  {
    hide RightItem;
    if k > 0 {
      GreedyPrefixes(input, n, items, other, k - 1);
      RightItemIsUnique(input, n, items[..k - 1], items[k - 1], other[k - 1]);
      assert items[..k] == items[..k - 1] + [items[k - 1]] && other[..k] == other[..k - 1] + [other[k - 1]];
    }
  }

  /** There is a result exactly when the greedy items of the whole input keep within the room. */
  lemma SucceedsExactly(input: seq<byte>)
    ensures var n := Length32(input);
            Compressed(input).Some? <==>
            && 4 < n < 0x4000_0000
            && exists items :: Span(items) == n && Greedy(input, n, items) && Roomy(n, items)
  {
    hide Run, Finish, Follows, Greedy, Roomy, Index, Trailing, Span, History;
    var n := Length32(input);
    if Compressed(input).Some? {
      var ts := CompressedIsGreedy(input);
      CompressedSize(input);
    }
    if 4 < n < 0x4000_0000 && exists items :: Span(items) == n && Greedy(input, n, items) && Roomy(n, items) {
      var items :| Span(items) == n && Greedy(input, n, items) && Roomy(n, items);
      StartTracks(input, n);
      StartFollows(input, n);
      RunGoesThrough(input, n, Start(input), items);
      var f := Run(input, n, Start(input)).value;
      TrackedSpan(input, n, f);
      RoomAtTheEnd(n, items, History(f.tokens, f.pending));
      FinishItems(input, n, f);
    }
  }

  lemma StartFollows(input: seq<byte>, n: nat)
    requires 4 < n <= |input| && Shape(input, n, Start(input)) && Tracks(input, n, Start(input))
    ensures Follows(input, n, Start(input)) && History(Start(input).tokens, Start(input).pending) == []
  {
    hide Follows;
    assert History([], []) == [];
  }

  lemma RoomAtTheEnd(n: nat, items: seq<Item>, h: seq<Item>)
    requires n > 4 && Roomy(n, items) && Span(items) == n && h <= items && Span(h) == n - 2
    ensures Index(h) - 1 <= n
  {
    hide Index, Trailing, Span;
    assert items[..|items|] == items && items[..|h|] == h;
    assert HasRoom(n, h, items[|h|]);
  }
}
