/**
  The greedy matcher inside Compress (lzf/lzf.go:51-187), as a machine over tokens. The output
  buffer is not here: a state has the complete tokens and the literal bytes still pending.
 */
module LzfMatcher {
  import opened Bytes
  import opened LzfFormat

  const TABLE_SIZE := 65536

  /** tokens and pending stand for output[4..oidx]; table is hashTable. */
  datatype Matcher = Matcher(iidx: nat, hval: u32, table: seq<u32>, tokens: seq<Token>, pending: seq<byte>)

  // ----- hashing -----

  /** (hval << 8) | b */
  function Shift(hval: u32, b: byte): u32 {
    hval as int * 256 % 0x1_0000_0000 + b
  }

  /** ((hval >> 8) - hval * 5) & 0xffff; the mask makes the wrap-around of the difference immaterial. */
  function HashSlot(hval: u32): (slot: nat)
    ensures slot < TABLE_SIZE
  {
    (hval as int / 256 - hval as int * 5) % TABLE_SIZE
  }

  function ByteOr(a: byte, b: byte): byte {
    assert Pow2(8) == 256;
    OrBits(a, b, 8)
  }

  /** lzf/lzf.go:137 shifts both of the first two bytes by 8. */
  function Rehash(a: byte, b: byte, c: byte): u32 {
    ByteOr(a, b) as int * 256 + c
  }

  // ----- matching -----

  predicate IsMatch(input: seq<byte>, n: nat, iidx: nat, backref: nat)
    requires n <= |input| && iidx < n && (backref == 0 || backref < iidx)
  {
    && iidx - backref - 1 < MAX_OFFSET
    && iidx + 4 < n
    && backref > 0
    && input[backref] == input[iidx]
    && input[backref + 1] == input[iidx + 1]
    && input[backref + 2] == input[iidx + 2]
  }

  function MaxLength(n: nat, iidx: nat): nat
    requires iidx + 4 < n
  {
    if n - iidx - 2 > MAX_BACKREF then MAX_BACKREF else n - iidx - 2
  }

  function MatchLength(input: seq<byte>, iidx: nat, backref: nat, length: nat, max: nat): (r: nat)
    requires backref < iidx && iidx + max <= |input| && length < max
    ensures length < r <= max
    decreases max - length
  {
    if length + 1 >= max || input[backref + length + 1] != input[iidx + length + 1] then length + 1
    else MatchLength(input, iidx, backref, length + 1, max)
  }

  // ----- literals -----

  function AddByte(tokens: seq<Token>, pending: seq<byte>, b: byte): (seq<Token>, seq<byte>) {
    if |pending| + 1 == MAX_LITERAL then (tokens + [Literal(pending + [b])], []) else (tokens, pending + [b])
  }

  function AddBytes(tokens: seq<Token>, pending: seq<byte>, bytes: seq<byte>): (seq<Token>, seq<byte>)
    decreases |bytes|
  {
    if bytes == [] then (tokens, pending)
    else
      var (ts, p) := AddByte(tokens, pending, bytes[0]);
      AddBytes(ts, p, bytes[1..])
  }

  function Flush(tokens: seq<Token>, pending: seq<byte>): seq<Token> {
    if pending == [] then tokens else tokens + [Literal(pending)]
  }

  // ----- the machine -----

  predicate Shape(input: seq<byte>, n: nat, m: Matcher) {
    && 4 < n <= |input| && m.iidx <= n - 2
    && |m.table| == TABLE_SIZE
    && (forall s :: 0 <= s < TABLE_SIZE ==> m.table[s] == 0 || m.table[s] < m.iidx)
    && AllWellFormed(m.tokens) && |m.pending| < MAX_LITERAL
  }

  /** oidx: the header, the tokens, one reserved control byte, the pending bytes. */
  function Position(tokens: seq<Token>, pending: seq<byte>): nat
    requires AllWellFormed(tokens)
  {
    5 + |EncodeAll(tokens)| + |pending|
  }

  function Start(input: seq<byte>): Matcher
    requires |input| >= 2
  {
    Matcher(0, input[1], seq(TABLE_SIZE, _ => 0), [], [])
  }

  function Step(input: seq<byte>, n: nat, m: Matcher): Option<Matcher>
    requires Shape(input, n, m) && m.iidx < n - 2 && n < MAX_SIZE
  {
    var hval := Shift(m.hval, input[m.iidx + 2]);
    var backref := m.table[HashSlot(hval)];
    var table := m.table[HashSlot(hval) := m.iidx];
    if IsMatch(input, n, m.iidx, backref) then
      if Position(m.tokens, m.pending) - (if m.pending == [] then 1 else 0) >= n then None
      else
        var length := MatchLength(input, m.iidx, backref, 2, MaxLength(n, m.iidx));
        var tokens := Flush(m.tokens, m.pending) + [Backref(m.iidx - backref - 1, length)];
        var next := m.iidx + length;
        if next >= n - 2 then Some(Matcher(next, hval, table, tokens, []))
        else
          var hval1 := Rehash(input[next - 2], input[next - 1], input[next]);
          var hval2 := Shift(hval1, input[next + 1]);
          Some(Matcher(next, hval2, table[HashSlot(hval1) := next - 2][HashSlot(hval2) := next - 1], tokens, []))
    else if Position(m.tokens, m.pending) >= n - 4 then None
    else
      var (tokens, pending) := AddByte(m.tokens, m.pending, input[m.iidx]);
      Some(Matcher(m.iidx + 1, hval, table, tokens, pending))
  }

  function Run(input: seq<byte>, n: nat, m: Matcher): Option<Matcher>
    requires Shape(input, n, m) && n < MAX_SIZE
    decreases n - m.iidx
  {
    if m.iidx >= n - 2 then Some(m)
    else
      match Step(input, n, m)
      case None => None
      case Some(next) =>
        StepKeepsShape(input, n, m);
        Run(input, n, next)
  }

  lemma StepKeepsShape(input: seq<byte>, n: nat, m: Matcher)
    requires Shape(input, n, m) && m.iidx < n - 2 && n < MAX_SIZE
    ensures Step(input, n, m).Some? ==>
              Shape(input, n, Step(input, n, m).value) && m.iidx < Step(input, n, m).value.iidx
  {
    hide Shift, HashSlot, Rehash, EncodeAll, MatchLength;
  }
}
