/** When Compress has a result at all: never for ten bytes or fewer, always for a longer run of one byte. */
module LzfSuccess {
  import opened Bytes
  import opened LzfFormat
  import opened LzfDecoder
  import opened LzfMatcher
  import opened LzfCompressor

  /** A step that finds no earlier position in its slot writes a literal, or gives up. */
  lemma LiteralStep(input: seq<byte>, n: nat, m: Matcher)
    requires Shape(input, n, m) && m.iidx < n - 2 && n < MAX_SIZE
    requires m.table[HashSlot(Shift(m.hval, input[m.iidx + 2]))] == 0 || m.iidx + 4 >= n
    requires |m.pending| + 1 < MAX_LITERAL
    ensures Step(input, n, m) ==
            if Position(m.tokens, m.pending) >= n - 4 then None
            else Some(Matcher(m.iidx + 1, Shift(m.hval, input[m.iidx + 2]),
                              m.table[HashSlot(Shift(m.hval, input[m.iidx + 2])) := m.iidx],
                              m.tokens, m.pending + [input[m.iidx]]))
  {
    hide Shift, HashSlot, Position;
  }

  lemma EmptyPosition(pending: seq<byte>)
    ensures Position([], pending) == 5 + |pending|
  {
  }

  /** The first two steps find nothing: position 0 is never taken for a match. */
  lemma FirstSteps(input: seq<byte>, n: nat) returns (m: Matcher)
    requires 4 < n <= |input| && n < MAX_SIZE
    ensures n <= 10 ==> Run(input, n, Start(input)) == None
    ensures n > 10 ==> Shape(input, n, m) && Run(input, n, m) == Run(input, n, Start(input))
    ensures n > 10 ==> m.iidx == 2 && m.tokens == [] && |m.pending| == 2
    ensures n > 10 ==> m.hval == Shift(Shift(input[1], input[2]), input[3]) && m.table[HashSlot(m.hval)] == 1
  {
    hide Shift, HashSlot, Run, Step, Position;
    m := Start(input);
    EmptyPosition(m.pending);
    LiteralStep(input, n, m);
    RunTurn(input, n, m);
    if n > 9 {
      m := Step(input, n, m).value;
      EmptyPosition(m.pending);
      LiteralStep(input, n, m);
      RunTurn(input, n, m);
      if n > 10 {
        m := Step(input, n, m).value;
      }
    }
  }

  /** Ten bytes or fewer are never compressed. */
  lemma TooShort(input: seq<byte>)
    requires Length32(input) <= 10
    ensures Compressed(input) == None
  {
    hide Run;
    var n := Length32(input);
    if n > 4 {
      var m := FirstSteps(input, n);
    }
  }

  // ----- a run of one byte -----

  /** The last three bytes hashed are b, b, b. */
  predicate Steady(hval: u32, b: byte) {
    hval % 0x100_0000 == b as int * 0x1_0101
  }

  /** The top byte is shifted out. */
  lemma ShiftDropsTop(hval: u32, b: byte)
    ensures Shift(hval, b) == hval as int % 0x100_0000 * 256 + b
  {
    var q: int, r: int := hval / 0x100_0000, hval % 0x100_0000;
    assert hval as int * 256 == q * 0x1_0000_0000 + r * 256;
  }

  lemma ShiftSteady(hval: u32, b: byte)
    requires Steady(hval, b) || hval == b as int * 0x101
    ensures Steady(Shift(hval, b), b)
  {
    hide Shift;
    ShiftDropsTop(hval, b);
  }

  lemma ModShift(x: int, k: int)
    ensures (x + k * 0x1_0000) % 0x1_0000 == x % 0x1_0000
  {
  }

  lemma DivShift(q: nat, r: nat)
    ensures (q * 0x100_0000 + r) / 256 == q * 0x1_0000 + r / 256
  {
  }

  /** The slot sees only the last three bytes. */
  lemma SlotSteady(hval: u32, b: byte)
    requires Steady(hval, b)
    ensures HashSlot(hval) == HashSlot(b as int * 0x1_0101)
  {
    var q: nat, r: nat := hval / 0x100_0000, hval % 0x100_0000;
    DivShift(q, r);
    ModShift(r / 256 - r * 5, q - q * 0x500);
  }

  lemma OrSame(b: byte)
    ensures ByteOr(b, b) == b
  {
    assert Pow2(8) == 256;
    OrSelf(b, 8);
  }

  predicate AllSame(input: seq<byte>, b: byte) {
    forall i :: 0 <= i < |input| ==> input[i] == b
  }

  lemma {:induction false} MatchIsLongest(input: seq<byte>, b: byte, iidx: nat, backref: nat, length: nat, max: nat)
    requires AllSame(input, b) && backref < iidx && iidx + max <= |input| && length < max
    ensures MatchLength(input, iidx, backref, length, max) == max
    decreases max - length
  {
    if length + 1 < max {
      MatchIsLongest(input, b, iidx, backref, length + 1, max);
    }
  }

  /** A state on the way through the run: the previous position is in the slot of b, b, b, and the code is short. */
  ghost predicate OnTheWay(input: seq<byte>, n: nat, b: byte, m: Matcher) {
    && Shape(input, n, m) && n > 10 && m.iidx >= 2 && |m.pending| <= 2
    && Position(m.tokens, m.pending) <= n + 1
    && (m.iidx < n - 2 ==>
          && Steady(m.hval, b) && m.table[HashSlot(b as int * 0x1_0101)] == m.iidx - 1
          && (if m.iidx == 2 then Position(m.tokens, m.pending) == 7 && |m.pending| == 2
              else Position(m.tokens, m.pending) + 200 <= m.iidx)
          && (m.iidx != 2 && m.iidx + 4 <= n ==> m.pending == [])
          && (m.iidx + 3 == n ==> |m.pending| <= 1))
  }

  /** A step that finds the previous position copies as much as one token may. */
  lemma MatchStep(input: seq<byte>, n: nat, b: byte, m: Matcher) returns (next: Matcher)
    requires AllSame(input, b) && OnTheWay(input, n, b, m) && m.iidx + 4 < n < MAX_SIZE
    ensures var max := MaxLength(n, m.iidx);
            && Step(input, n, m) == Some(next) && next.iidx == m.iidx + max && next.pending == []
            && next.tokens == Flush(m.tokens, m.pending) + [Backref(0, max)]
            && (next.iidx < n - 2 ==> Steady(next.hval, b) && next.table[HashSlot(b as int * 0x1_0101)] == next.iidx - 1)
  {
    hide Shift, HashSlot, Position, Steady, ByteOr;
    var hval := Shift(m.hval, input[m.iidx + 2]);
    ShiftSteady(m.hval, b);
    SlotSteady(hval, b);
    assert IsMatch(input, n, m.iidx, m.iidx - 1);
    MatchIsLongest(input, b, m.iidx, m.iidx - 1, 2, MaxLength(n, m.iidx));
    next := Step(input, n, m).value;
    OrSame(b);
    ShiftSteady(Rehash(b, b, b), b);
    SlotSteady(Shift(Rehash(b, b, b), b), b);
  }

  lemma MatchPosition(m: Matcher, max: nat)
    requires AllWellFormed(m.tokens) && |m.pending| < MAX_LITERAL && 3 <= max <= MAX_BACKREF
    ensures var tokens := Flush(m.tokens, m.pending) + [Backref(0, max)];
            AllWellFormed(tokens) && Position(tokens, []) <= Position(m.tokens, m.pending) + if m.pending == [] then 3 else 4
  {
    hide Encode, EncodeAll, Flush;
    FlushPosition(m.tokens, m.pending);
    EncodeAllAppend(Flush(m.tokens, m.pending), Backref(0, max));
    EncodeBackref(Backref(0, max));
  }

  lemma OnTheWayStep(input: seq<byte>, n: nat, b: byte, m: Matcher)
    requires AllSame(input, b) && OnTheWay(input, n, b, m) && m.iidx < n - 2 && n < MAX_SIZE
    ensures Step(input, n, m).Some? && OnTheWay(input, n, b, Step(input, n, m).value)
  {
    hide Step, Shift, HashSlot, Steady, EncodeAll, Flush;
    if m.iidx + 4 < n {
      var next := MatchStep(input, n, b, m);
      MatchPosition(m, MaxLength(n, m.iidx));
      StepKeepsShape(input, n, m);
    } else {
      ShiftSteady(m.hval, b);
      SlotSteady(Shift(m.hval, b), b);
      LiteralStep(input, n, m);
      StepKeepsShape(input, n, m);
    }
  }

  lemma {:induction false} OnTheWayRun(input: seq<byte>, n: nat, b: byte, m: Matcher)
    requires AllSame(input, b) && OnTheWay(input, n, b, m) && n < MAX_SIZE
    ensures Run(input, n, m).Some? && OnTheWay(input, n, b, Run(input, n, m).value)
    decreases n - m.iidx
  {
    hide Step, Position, Steady;
    if m.iidx < n - 2 {
      OnTheWayStep(input, n, b, m);
      StepKeepsShape(input, n, m);
      OnTheWayRun(input, n, b, Step(input, n, m).value);
    }
  }

  /** A run of one byte is compressed exactly when at least eleven bytes of it are seen, and fewer than the
      size limit. */
  lemma ConstantRunCompresses(input: seq<byte>, b: byte)
    requires AllSame(input, b)
    ensures Compressed(input).Some? <==> 10 < Length32(input) < MAX_SIZE
  {
    hide Run, Step, Shift, HashSlot, Steady, AddBytes, EncodeAll;
    var n := Length32(input);
    if 4 < n < MAX_SIZE {
      var m := FirstSteps(input, n);
      if n > 10 {
        ShiftSteady(Shift(b, b), b) by { FirstShift(b); }
        SlotSteady(m.hval, b);
        EmptyPosition(m.pending);
        OnTheWayRun(input, n, b, m);
      }
    }
  }

  /** Inputs that do not come back exist: of 2^32 + 11 equal bytes eleven are compressed and given back. */
  lemma LongRunIsCutOff(b: byte)
    ensures var input: seq<byte> := seq(0x1_0000_000b, _ => b);
            && Compressed(input).Some?
            && Decompressed(Compressed(input).value) == Decoded(seq(11, _ => b)) != Decoded(input)
  {
    hide Compressed, Decompressed;
    var input: seq<byte> := seq(0x1_0000_000b, _ => b);
    ConstantRunCompresses(input, b);
    CompressedRoundTrips(input);
    assert input[..11] == seq(11, _ => b);
  }

  /** The size limit of the package, in bytes: 2^30 - 1 of them are compressed, 2^30 are not. */
  lemma SizeLimit(b: byte)
    ensures Compressed(seq(0x3fff_ffff, _ => b)).Some? && Compressed(seq(0x4000_0000, _ => b)) == None
  {
    hide Compressed;
    ConstantRunCompresses(seq(0x3fff_ffff, _ => b), b);
    ConstantRunCompresses(seq(0x4000_0000, _ => b), b);
  }

  lemma FirstShift(b: byte)
    ensures Shift(b, b) == b as int * 0x101
  {
  }
}
