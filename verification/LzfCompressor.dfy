/**
  Compress (lzf/lzf.go:51-196): the buffer code refines the token machine, and what the machine
  emits is decoded to the input again.
 */
module LzfCompressor {
  import opened Bytes
  import opened LzfFormat
  import opened LzfDecoder
  import opened LzfMatcher

  /** lzf/lzf.go:168-194: the last bytes become literals and the header goes in front. */
  function Finish(input: seq<byte>, n: nat, m: Matcher): Option<seq<byte>>
    requires Shape(input, n, m)
  {
    if Position(m.tokens, m.pending) - 1 > n then None
    else
      var (tokens, pending) := AddBytes(m.tokens, m.pending, input[m.iidx..n]);
      AddBytesWellFormed(m.tokens, m.pending, input[m.iidx..n]);
      Some(ToBigEndian(n) + EncodeAll(Flush(tokens, pending)))
  }

  function Compressed(input: seq<byte>): Option<seq<byte>> {
    var n := Length32(input);
    if n <= 4 || n >= MAX_SIZE then None
    else
      match Run(input, n, Start(input))
      case None => None
      case Some(m) =>
        RunKeepsShape(input, n, Start(input));
        Finish(input, n, m)
  }

  lemma {:induction false} AddBytesWellFormed(tokens: seq<Token>, pending: seq<byte>, bytes: seq<byte>)
    requires AllWellFormed(tokens) && |pending| < MAX_LITERAL
    ensures var (ts, p) := AddBytes(tokens, pending, bytes); AllWellFormed(ts) && |p| < MAX_LITERAL
    ensures var (ts, p) := AddBytes(tokens, pending, bytes); AllWellFormed(Flush(ts, p))
    decreases |bytes|
  {
    if bytes != [] {
      var (ts, p) := AddByte(tokens, pending, bytes[0]);
      AddBytesWellFormed(ts, p, bytes[1..]);
    }
  }

  lemma {:induction false} RunKeepsShape(input: seq<byte>, n: nat, m: Matcher)
    requires Shape(input, n, m) && n < MAX_SIZE
    ensures Run(input, n, m).Some? ==> Shape(input, n, Run(input, n, m).value) && Run(input, n, m).value.iidx == n - 2
    decreases n - m.iidx
  {
    hide Step;
    if m.iidx < n - 2 && Step(input, n, m).Some? {
      StepKeepsShape(input, n, m);
      RunKeepsShape(input, n, Step(input, n, m).value);
    }
  }

  // ----- round trip -----

  /** The tokens and then the pending bytes mean s. */
  ghost predicate Produces(tokens: seq<Token>, pending: seq<byte>, s: seq<byte>) {
    Meaning(tokens, []).Some? && Meaning(tokens, []).value + pending == s
  }

  lemma MeaningOfNothing()
    ensures Meaning([], []) == Some([])
  {
  }

  lemma FlushProduces(tokens: seq<Token>, pending: seq<byte>, s: seq<byte>)
    requires Produces(tokens, pending, s)
    ensures Meaning(Flush(tokens, pending), []) == Some(s)
  {
    if pending != [] {
      MeaningAppend(tokens, [Literal(pending)], []);
      assert Meaning([Literal(pending)], Meaning(tokens, []).value) == Some(s);
    } else {
      assert Meaning(tokens, []).value + pending == Meaning(tokens, []).value;
    }
  }

  lemma AddByteProduces(tokens: seq<Token>, pending: seq<byte>, b: byte, s: seq<byte>)
    requires Produces(tokens, pending, s)
    ensures var (ts, p) := AddByte(tokens, pending, b); Produces(ts, p, s + [b])
  {
    var m := Meaning(tokens, []).value;
    assert m + (pending + [b]) == s + [b];
    FlushProduces(tokens, pending + [b], s + [b]);
  }

  lemma {:induction false} AddBytesProduces(tokens: seq<Token>, pending: seq<byte>, bytes: seq<byte>, s: seq<byte>)
    requires Produces(tokens, pending, s)
    ensures var (ts, p) := AddBytes(tokens, pending, bytes); Produces(ts, p, s + bytes)
    decreases |bytes|
  {
    if bytes == [] {
      assert s + bytes == s;
    } else {
      var (ts, p) := AddByte(tokens, pending, bytes[0]);
      AddByteProduces(tokens, pending, bytes[0], s);
      AddBytesProduces(ts, p, bytes[1..], s + [bytes[0]]);
      assert s + [bytes[0]] + bytes[1..] == s + bytes;
    }
  }

  /** The match found is real, and it is cut only by the cap or by the first difference. */
  lemma {:induction false} MatchLengthAgrees(input: seq<byte>, iidx: nat, backref: nat, length: nat, max: nat)
    requires backref < iidx && iidx + max <= |input| && length < max
    requires input[backref..backref + length + 1] == input[iidx..iidx + length + 1]
    ensures var r := MatchLength(input, iidx, backref, length, max);
            && input[backref..backref + r] == input[iidx..iidx + r]
            && (r == max || input[backref + r] != input[iidx + r])
    decreases max - length
  {
    if length + 1 < max && input[backref + length + 1] == input[iidx + length + 1] {
      assert input[backref..backref + length + 2] == input[backref..backref + length + 1] + [input[backref + length + 1]];
      assert input[iidx..iidx + length + 2] == input[iidx..iidx + length + 1] + [input[iidx + length + 1]];
      MatchLengthAgrees(input, iidx, backref, length + 1, max);
    }
  }

  lemma CopyOfInput(input: seq<byte>, iidx: nat, backref: nat, length: nat)
    requires backref < iidx && iidx + length <= |input|
    requires input[backref..backref + length] == input[iidx..iidx + length]
    ensures CopyBack(input[..iidx], iidx - backref - 1, length) == input[..iidx + length]
  {
    hide CopyBack;
    var offset, r := iidx - backref - 1, input[..iidx + length];
    forall k | iidx <= k < |r| ensures r[k] == r[k - 1 - offset] {
      assert input[backref..backref + length][k - iidx] == input[iidx..iidx + length][k - iidx];
    }
    CopyBackIsPeriodic(input[..iidx], offset, length, r);
  }

  lemma BackrefProduces(tokens: seq<Token>, input: seq<byte>, iidx: nat, backref: nat, length: nat)
    requires backref < iidx && iidx + length <= |input|
    requires Meaning(tokens, []) == Some(input[..iidx])
    requires input[backref..backref + length] == input[iidx..iidx + length]
    ensures Meaning(tokens + [Backref(iidx - backref - 1, length)], []) == Some(input[..iidx + length])
  {
    hide CopyBack;
    var t := Backref(iidx - backref - 1, length);
    MeaningAppend(tokens, [t], []);
    CopyOfInput(input, iidx, backref, length);
    assert Apply(input[..iidx], t) == input[..iidx + length];
    assert Meaning([t], input[..iidx]) == Some(input[..iidx + length]);
  }

  lemma MatchProduces(input: seq<byte>, n: nat, m: Matcher, backref: nat)
    requires n <= |input| && m.iidx < n && (backref == 0 || backref < m.iidx) && IsMatch(input, n, m.iidx, backref)
    requires Produces(m.tokens, m.pending, input[..m.iidx])
    ensures var length := MatchLength(input, m.iidx, backref, 2, MaxLength(n, m.iidx));
            Meaning(Flush(m.tokens, m.pending) + [Backref(m.iidx - backref - 1, length)], []) == Some(input[..m.iidx + length])
  {
    hide Meaning, MatchLength;
    FlushProduces(m.tokens, m.pending, input[..m.iidx]);
    var length := MatchLength(input, m.iidx, backref, 2, MaxLength(n, m.iidx));
    assert input[backref..backref + 3] == input[m.iidx..m.iidx + 3];
    MatchLengthAgrees(input, m.iidx, backref, 2, MaxLength(n, m.iidx));
    BackrefProduces(Flush(m.tokens, m.pending), input, m.iidx, backref, length);
  }

  /** Whatever the hash table holds, a step keeps: the tokens and pending bytes mean the input read so far. */
  lemma StepProduces(input: seq<byte>, n: nat, m: Matcher)
    requires Shape(input, n, m) && m.iidx < n - 2 && n < MAX_SIZE
    requires Produces(m.tokens, m.pending, input[..m.iidx])
    ensures match Step(input, n, m)
            case None => true
            case Some(next) => next.iidx <= |input| && Produces(next.tokens, next.pending, input[..next.iidx])
  {
    hide Shift, HashSlot, Rehash, EncodeAll, Meaning, MatchLength, Flush, AddByte;
    StepKeepsShape(input, n, m);
    var backref := m.table[HashSlot(Shift(m.hval, input[m.iidx + 2]))];
    if IsMatch(input, n, m.iidx, backref) {
      MatchProduces(input, n, m, backref);
    } else {
      AddByteProduces(m.tokens, m.pending, input[m.iidx], input[..m.iidx]);
      assert input[..m.iidx] + [input[m.iidx]] == input[..m.iidx + 1];
    }
  }

  lemma {:induction false} RunProduces(input: seq<byte>, n: nat, m: Matcher)
    requires Shape(input, n, m) && n < MAX_SIZE
    requires Produces(m.tokens, m.pending, input[..m.iidx])
    requires Run(input, n, m).Some?
    ensures Run(input, n, m).value.iidx == n - 2
    ensures Produces(Run(input, n, m).value.tokens, Run(input, n, m).value.pending, input[..n - 2])
    decreases n - m.iidx
  {
    hide Step;
    if m.iidx < n - 2 {
      StepKeepsShape(input, n, m);
      StepProduces(input, n, m);
      RunProduces(input, n, Step(input, n, m).value);
    }
  }

  // ----- size -----

  /** The buffer of n + 4 bytes is never left: the early exits keep oidx this small. */
  ghost predicate Fits(n: nat, m: Matcher)
    requires AllWellFormed(m.tokens)
  {
    Position(m.tokens, m.pending) <= n + 3 && (m.pending != [] ==> Position(m.tokens, m.pending) <= n - 4)
  }

  lemma AddBytePosition(tokens: seq<Token>, pending: seq<byte>, b: byte)
    requires AllWellFormed(tokens) && |pending| < MAX_LITERAL
    ensures var (ts, p) := AddByte(tokens, pending, b);
            AllWellFormed(ts) && Position(ts, p) == Position(tokens, pending) + if p == [] then 2 else 1
  {
    hide Encode, EncodeAll;
    if |pending| + 1 == MAX_LITERAL {
      EncodeAllAppend(tokens, Literal(pending + [b]));
      EncodeLiteral(pending + [b]);
    }
  }

  lemma EncodeLiteral(bytes: seq<byte>)
    requires 1 <= |bytes| <= MAX_LITERAL
    ensures Encode(Literal(bytes)) == [|bytes| - 1] + bytes
  {
  }

  lemma FlushPosition(tokens: seq<Token>, pending: seq<byte>)
    requires AllWellFormed(tokens) && |pending| < MAX_LITERAL
    ensures AllWellFormed(Flush(tokens, pending))
    ensures |EncodeAll(Flush(tokens, pending))| == Position(tokens, pending) - 4 - if pending == [] then 1 else 0
  {
    hide Encode, EncodeAll;
    if pending != [] {
      EncodeAllAppend(tokens, Literal(pending));
      EncodeLiteral(pending);
    }
  }

  lemma StepFits(input: seq<byte>, n: nat, m: Matcher)
    requires Shape(input, n, m) && m.iidx < n - 2 && n < MAX_SIZE && Step(input, n, m).Some?
    ensures AllWellFormed(Step(input, n, m).value.tokens) && Fits(n, Step(input, n, m).value)
  {
    hide Shift, HashSlot, Rehash, Encode, EncodeAll, MatchLength, Flush, AddByte;
    StepKeepsShape(input, n, m);
    var backref := m.table[HashSlot(Shift(m.hval, input[m.iidx + 2]))];
    if IsMatch(input, n, m.iidx, backref) {
      var t := Backref(m.iidx - backref - 1, MatchLength(input, m.iidx, backref, 2, MaxLength(n, m.iidx)));
      FlushPosition(m.tokens, m.pending);
      EncodeAllAppend(Flush(m.tokens, m.pending), t);
      EncodeBackref(t);
    } else {
      AddBytePosition(m.tokens, m.pending, input[m.iidx]);
    }
  }

  lemma EncodeBackref(t: Token)
    requires WellFormed(t) && t.Backref?
    ensures Encode(t) == if t.count < 9 then [t.offset / 256 + (t.count - 2) * 32, t.offset % 256]
                         else [t.offset / 256 + 7 * 32, t.count - 9, t.offset % 256]
  {
  }

  lemma {:induction false} RunFits(input: seq<byte>, n: nat, m: Matcher)
    requires Shape(input, n, m) && n < MAX_SIZE && Fits(n, m) && Run(input, n, m).Some?
    ensures Shape(input, n, Run(input, n, m).value) && Fits(n, Run(input, n, m).value)
    decreases n - m.iidx
  {
    hide Step, Position;
    if m.iidx < n - 2 {
      StepKeepsShape(input, n, m);
      StepFits(input, n, m);
      RunFits(input, n, Step(input, n, m).value);
    }
  }

  lemma CompressedSize(input: seq<byte>)
    requires Compressed(input).Some?
    ensures |Compressed(input).value| <= Length32(input) + 3
    ensures 4 < Length32(input) < MAX_SIZE
  {
    hide Run, EncodeAll, Step, Flush;
    var n := Length32(input);
    RunKeepsShape(input, n, Start(input));
    EncodeNothing();
    RunFits(input, n, Start(input));
    var m := Run(input, n, Start(input)).value;
    var b, c := input[n - 2], input[n - 1];
    assert input[m.iidx..n] == [b, c];
    AddBytePosition(m.tokens, m.pending, b);
    var (ts, p) := AddByte(m.tokens, m.pending, b);
    assert |p| < MAX_LITERAL by { AddBytesWellFormed(m.tokens, m.pending, [b]); AddOneByte(m.tokens, m.pending, b); }
    AddBytePosition(ts, p, c);
    var (us, q) := AddByte(ts, p, c);
    AddTwoBytes(m.tokens, m.pending, b, c);
    AddBytesWellFormed(m.tokens, m.pending, [b, c]);
    FlushPosition(us, q);
  }

  lemma EncodeNothing()
    ensures EncodeAll([]) == []
  {
  }

  lemma AddOneByte(tokens: seq<Token>, pending: seq<byte>, b: byte)
    ensures AddBytes(tokens, pending, [b]) == AddByte(tokens, pending, b)
  {
  }

  lemma AddTwoBytes(tokens: seq<Token>, pending: seq<byte>, b: byte, c: byte)
    ensures var (ts, p) := AddByte(tokens, pending, b); AddBytes(tokens, pending, [b, c]) == AddByte(ts, p, c)
  {
    var (ts, p) := AddByte(tokens, pending, b);
    assert [b, c][1..] == [c];
    AddOneByte(ts, p, c);
  }

  // ----- a result needs a match -----

  ghost predicate HasBackref(ts: seq<Token>) {
    exists i :: 0 <= i < |ts| && ts[i].Backref?
  }

  /** Without a back reference the code is already longer than the bytes it stands for. */
  ghost predicate Expanding(m: Matcher)
    requires AllWellFormed(m.tokens)
  {
    HasBackref(m.tokens) || Position(m.tokens, m.pending) >= 5 + m.iidx
  }

  lemma StepExpands(input: seq<byte>, n: nat, m: Matcher)
    requires Shape(input, n, m) && m.iidx < n - 2 && n < MAX_SIZE && Step(input, n, m).Some? && Expanding(m)
    ensures Shape(input, n, Step(input, n, m).value) && Expanding(Step(input, n, m).value)
    ensures m.iidx == n - 3 ==> HasBackref(Step(input, n, m).value.tokens)
  {
    hide Shift, HashSlot, Rehash, Encode, EncodeAll, MatchLength, Flush, AddByte, Position;
    StepKeepsShape(input, n, m);
    var next := Step(input, n, m).value;
    var backref := m.table[HashSlot(Shift(m.hval, input[m.iidx + 2]))];
    if IsMatch(input, n, m.iidx, backref) {
      assert next.tokens[|next.tokens| - 1].Backref?;
    } else {
      AddBytePosition(m.tokens, m.pending, input[m.iidx]);
      if HasBackref(m.tokens) {
        AddByteKeepsBackref(m.tokens, m.pending, input[m.iidx]);
      }
    }
  }

  lemma AddByteKeepsBackref(tokens: seq<Token>, pending: seq<byte>, b: byte)
    requires HasBackref(tokens)
    ensures HasBackref(AddByte(tokens, pending, b).0)
  {
    var i :| 0 <= i < |tokens| && tokens[i].Backref?;
    assert AddByte(tokens, pending, b).0[i].Backref?;
  }

  lemma {:induction false} RunNeedsMatch(input: seq<byte>, n: nat, m: Matcher)
    requires Shape(input, n, m) && n < MAX_SIZE && m.iidx < n - 2 && Expanding(m) && Run(input, n, m).Some?
    ensures HasBackref(Run(input, n, m).value.tokens)
    decreases n - m.iidx
  {
    hide Step, Position;
    StepKeepsShape(input, n, m);
    StepExpands(input, n, m);
    var next := Step(input, n, m).value;
    if next.iidx < n - 2 {
      RunNeedsMatch(input, n, next);
    } else if m.iidx < n - 3 {
      JumpIsMatch(input, n, m);
    }
  }

  /** Only a match moves by more than one byte. */
  lemma JumpIsMatch(input: seq<byte>, n: nat, m: Matcher)
    requires Shape(input, n, m) && m.iidx < n - 2 && n < MAX_SIZE && Step(input, n, m).Some?
    requires Step(input, n, m).value.iidx > m.iidx + 1
    ensures HasBackref(Step(input, n, m).value.tokens)
  {
    hide Shift, HashSlot, Rehash, Encode, EncodeAll, MatchLength, Flush, AddByte, Position;
    var next := Step(input, n, m).value;
    assert next.tokens[|next.tokens| - 1].Backref?;
  }

  lemma {:induction false} AddBytesKeepBackref(tokens: seq<Token>, pending: seq<byte>, bytes: seq<byte>)
    requires HasBackref(tokens)
    ensures var (ts, p) := AddBytes(tokens, pending, bytes); HasBackref(ts) && HasBackref(Flush(ts, p))
    decreases |bytes|
  {
    if bytes == [] {
      var i :| 0 <= i < |tokens| && tokens[i].Backref?;
      assert Flush(tokens, pending)[i].Backref?;
    } else {
      var (ts, p) := AddByte(tokens, pending, bytes[0]);
      AddByteKeepsBackref(tokens, pending, bytes[0]);
      AddBytesKeepBackref(ts, p, bytes[1..]);
    }
  }

  // ----- the results about Compress -----

  /** What Compress emits is the length followed by the code of tokens that mean the input. One of
      them is a back reference: an input without any match is given up (nil). */
  lemma CompressedTokens(input: seq<byte>) returns (ts: seq<Token>)
    requires Compressed(input).Some?
    ensures AllWellFormed(ts)
    ensures Compressed(input).value == ToBigEndian(Length32(input)) + EncodeAll(ts)
    ensures Meaning(ts, []) == Some(input[..Length32(input)])
    ensures HasBackref(ts)
    ensures 4 < Length32(input) < MAX_SIZE
  {
    hide Run, AddBytes, Meaning, EncodeAll, Flush, Encode;
    var n := Length32(input);
    var m0 := Start(input);
    MeaningOfNothing();
    assert input[..0] == [];
    RunProduces(input, n, m0);
    RunKeepsShape(input, n, m0);
    var m := Run(input, n, m0).value;
    var (tokens, pending) := AddBytes(m.tokens, m.pending, input[m.iidx..n]);
    AddBytesWellFormed(m.tokens, m.pending, input[m.iidx..n]);
    AddBytesProduces(m.tokens, m.pending, input[m.iidx..n], input[..m.iidx]);
    assert input[..m.iidx] + input[m.iidx..n] == input[..n];
    FlushProduces(tokens, pending, input[..n]);
    ts := Flush(tokens, pending);
    EncodeNothing();
    RunNeedsMatch(input, n, m0);
    AddBytesKeepBackref(m.tokens, m.pending, input[m.iidx..n]);
  }

  /** The length and the code of some tokens are decompressed to what the tokens mean. */
  lemma CodeDecompresses(ts: seq<Token>, r: seq<byte>)
    requires AllWellFormed(ts) && Meaning(ts, []) == Some(r) && 4 < |r| < MAX_SIZE
    ensures Decompressed(ToBigEndian(|r|) + EncodeAll(ts)) == Decoded(r)
  {
    hide Meaning, EncodeAll, Decompressed, Zeros, BigEndian, ToBigEndian;
    var out := ToBigEndian(|r|) + EncodeAll(ts);
    BigEndianRoundTrip(|r|);
    BigEndianOfPrefix(ToBigEndian(|r|), EncodeAll(ts));
    CodeSize(ts, []);
    assert out[4..Length32(out)] == EncodeAll(ts);
    assert Tokenizes(ts, out[4..Length32(out)], [], r);
    if ts == [] { MeaningOfNothing(); }
    CodeIsLong(ts);
    assert r == r + Zeros(|r| - |r|);
    DecompressedAccepts(out, r);
  }

  lemma BigEndianOfPrefix(a: seq<byte>, b: seq<byte>)
    requires |a| == 4
    ensures BigEndian(a + b) == BigEndian(a)
  {
  }

  /** The law of the package: whatever Compress returns decompresses to the input. Above 2^32 bytes
      uint32(len(input)) drops the high bits and only that many leading bytes are compressed. */
  lemma CompressedRoundTrips(input: seq<byte>)
    requires Compressed(input).Some?
    ensures Decompressed(Compressed(input).value) == Decoded(input[..Length32(input)])
    ensures Decompressed(Compressed(input).value) == Decoded(input) <==> |input| < 0x1_0000_0000
  {
    hide Compressed, Decompressed, Meaning, EncodeAll, ToBigEndian;
    var ts := CompressedTokens(input);
    var out, n := Compressed(input).value, Length32(input);
    CodeDecompresses(ts, input[..n]);
    if |input| < 0x1_0000_0000 {
      assert input[..n] == input;
    }
  }

  lemma CodeIsLong(ts: seq<Token>)
    requires AllWellFormed(ts) && ts != []
    ensures |EncodeAll(ts)| >= 2
  {
    hide Encode;
  }

  // ----- the loops -----

  /** The buffer holds the tokens from index 4 on, then one reserved byte, then the pending bytes up to oidx. */
  ghost predicate Holds(out: seq<byte>, oidx: nat, tokens: seq<Token>, pending: seq<byte>) {
    && AllWellFormed(tokens) && oidx == Position(tokens, pending) <= |out|
    && out[4..oidx - |pending| - 1] == EncodeAll(tokens)
    && out[oidx - |pending|..oidx] == pending
  }

  /** lzf/lzf.go:153-162 and 173-181: the control byte of a full run is filled in afterwards. */
  method PutByte(output: array<byte>, oidx: nat, literal: nat, b: byte, ghost tokens: seq<Token>, ghost pending: seq<byte>)
      returns (oidx': nat, literal': nat)
    requires Holds(output[..], oidx, tokens, pending) && literal == |pending| < MAX_LITERAL
    requires oidx + 2 <= output.Length
    modifies output
    ensures var (ts, p) := AddByte(tokens, pending, b); Holds(output[..], oidx', ts, p) && literal' == |p| < MAX_LITERAL
    ensures oidx' == oidx + if literal + 1 == MAX_LITERAL then 2 else 1
  {
    hide Encode, EncodeAll;
    AddBytePosition(tokens, pending, b);
    output[oidx] := b;
    oidx', literal' := oidx + 1, literal + 1;
    assert output[oidx' - literal'..oidx'] == pending + [b];
    if literal' == MAX_LITERAL {
      EncodeAllAppend(tokens, Literal(pending + [b]));
      EncodeLiteral(pending + [b]);
      output[oidx' - literal' - 1] := literal' - 1;
      assert output[4..oidx'] == output[4..oidx' - literal' - 1] + [output[oidx' - literal' - 1]] + output[oidx' - literal'..oidx'];
      literal' := 0;
      oidx' := oidx' + 1;
    }
  }

  /** lzf/lzf.go:102-105 and 184-187: fills in the control byte, or gives the reserved slot back. */
  method CloseRun(output: array<byte>, oidx: nat, literal: nat, ghost tokens: seq<Token>, ghost pending: seq<byte>)
      returns (oidx': nat)
    requires Holds(output[..], oidx, tokens, pending) && literal == |pending| < MAX_LITERAL
    modifies output
    ensures oidx' == oidx - if literal == 0 then 1 else 0
    ensures 4 <= oidx' && AllWellFormed(Flush(tokens, pending)) && output[4..oidx'] == EncodeAll(Flush(tokens, pending))
  {
    hide Encode, EncodeAll;
    output[oidx - literal - 1] := (literal - 1) % 0x100;
    oidx' := oidx;
    if literal == 0 {
      oidx' := oidx' - 1;
    } else {
      EncodeAllAppend(tokens, Literal(pending));
      EncodeLiteral(pending);
      assert output[4..oidx] == output[4..oidx - literal - 1] + [output[oidx - literal - 1]] + output[oidx - literal..oidx];
    }
  }

  /** lzf/lzf.go:114-128; length counts the whole match. */
  method PutReference(output: array<byte>, oidx: nat, offset: nat, length: nat, ghost tokens: seq<Token>) returns (oidx': nat)
    requires AllWellFormed(tokens) && WellFormed(Backref(offset, length))
    requires 4 <= oidx && oidx + 4 <= output.Length && output[4..oidx] == EncodeAll(tokens)
    modifies output
    ensures Holds(output[..], oidx', tokens + [Backref(offset, length)], [])
  {
    hide EncodeAll, Encode;
    EncodeAllAppend(tokens, Backref(offset, length));
    EncodeBackref(Backref(offset, length));
    var length2 := length - 2;
    oidx' := oidx;
    if length2 < 7 {
      output[oidx'] := (offset / 256 + length2 * 32) % 0x100;
      oidx' := oidx' + 1;
    } else {
      output[oidx'] := (offset / 256 + 7 * 32) % 0x100;
      output[oidx' + 1] := (length2 - 7) % 0x100;
      oidx' := oidx' + 2;
    }
    output[oidx'] := offset % 0x100;
    oidx' := oidx' + 2;
    assert output[4..oidx] == old(output[4..oidx]);
    assert output[4..oidx' - 1] == output[4..oidx] + output[oidx..oidx' - 1];
    assert output[oidx..oidx' - 1] == Encode(Backref(offset, length));
  }

  /** lzf/lzf.go:83-87 and 107-112 */
  method FindMatchLength(input: seq<byte>, inputLength: u32, iidx: nat, backref: nat) returns (length: nat)
    requires backref < iidx && iidx + 4 < inputLength <= |input|
    ensures length == MatchLength(input, iidx, backref, 2, MaxLength(inputLength, iidx))
  {
    length := 2;
    var max: u32 := inputLength - iidx - length;
    if max > MAX_BACKREF {
      max := MAX_BACKREF;
    }
    while true
      invariant 2 <= length < max
      invariant MatchLength(input, iidx, backref, length, max) == MatchLength(input, iidx, backref, 2, max)
      decreases max - length
    {
      length := length + 1;
      if length >= max || input[backref + length] != input[iidx + length] {
        break;
      }
    }
  }

  /** lzf/lzf.go:135-145: the last two positions of a match enter the hash table as well. */
  method Reinsert(input: seq<byte>, iidx: u32, hashTable: array<u32>) returns (hval: u32)
    requires 2 <= iidx && iidx + 2 <= |input| && hashTable.Length == TABLE_SIZE
    modifies hashTable
    ensures var first := Rehash(input[iidx - 2], input[iidx - 1], input[iidx]);
            && hval == Shift(first, input[iidx + 1])
            && hashTable[..] == old(hashTable[..])[HashSlot(first) := iidx - 2][HashSlot(hval) := iidx - 1]
  {
    hide Rehash, Shift, HashSlot;
    var i := iidx - 2;
    hval := Rehash(input[i], input[i + 1], input[i + 2]);
    var hslot := HashSlot(hval);
    hashTable[hslot] := i;
    i := i + 1;
    hval := Shift(hval, input[i + 2]);
    hslot := HashSlot(hval);
    hashTable[hslot] := i;
  }

  /** lzf/lzf.go:172-187 */
  method PutTail(input: seq<byte>, n: u32, output: array<byte>, oidx: nat, literal: nat, ghost m: Matcher) returns (oidx': nat)
    requires Shape(input, n, m) && m.iidx == n - 2 && Fits(n, m) && output.Length == n + 4 && oidx <= n + 1
    requires Holds(output[..], oidx, m.tokens, m.pending) && literal == |m.pending|
    modifies output
    ensures var (ts, p) := AddBytes(m.tokens, m.pending, input[m.iidx..n]);
            && 4 <= oidx' <= n + 4 && AllWellFormed(Flush(ts, p))
            && output[4..oidx'] == EncodeAll(Flush(ts, p))
  {
    hide EncodeAll, AddByte, Position, Flush, WellFormed;
    var iidx, lit: nat := n - 2, literal;
    oidx' := oidx;
    ghost var tokens, pending := m.tokens, m.pending;
    while iidx < n
      invariant n - 2 <= iidx <= n && oidx' <= n + 1 + (iidx - (n - 2)) + (if iidx == n then 1 else 0)
      invariant iidx == n - 2 && lit > 0 ==> oidx' <= n - 4
      invariant Holds(output[..], oidx', tokens, pending) && lit == |pending| < MAX_LITERAL
      invariant AddBytes(tokens, pending, input[iidx..n]) == AddBytes(m.tokens, m.pending, input[m.iidx..n])
    {
      assert input[iidx..n][0] == input[iidx] && input[iidx..n][1..] == input[iidx + 1..n];
      ghost var (ts, p) := AddByte(tokens, pending, input[iidx]);
      oidx', lit := PutByte(output, oidx', lit, input[iidx], tokens, pending);
      iidx := iidx + 1;
      tokens, pending := ts, p;
    }
    oidx' := CloseRun(output, oidx', lit, tokens, pending);
  }

  /** lzf/lzf.go:83-128; false when even the exact test finds no room. */
  method EmitMatch(input: seq<byte>, n: u32, output: array<byte>, oidx: nat, literal: nat, iidx: nat, backref: nat,
                   ghost tokens: seq<Token>, ghost pending: seq<byte>)
      returns (ok: bool, oidx': nat, length: nat)
    requires 4 < n <= |input| && output.Length == n + 4 && iidx < n && (backref == 0 || backref < iidx)
    requires IsMatch(input, n, iidx, backref)
    requires Holds(output[..], oidx, tokens, pending) && literal == |pending| < MAX_LITERAL
    modifies output
    ensures ok <==> Position(tokens, pending) - (if pending == [] then 1 else 0) < n
    ensures ok ==> length == MatchLength(input, iidx, backref, 2, MaxLength(n, iidx))
    ensures ok ==> Holds(output[..], oidx', Flush(tokens, pending) + [Backref(iidx - backref - 1, length)], [])
  {
    hide EncodeAll, MatchLength, Position, Flush;
    if oidx >= n {
      var diff := if literal > 0 then 0 else 1;
      if oidx - diff >= n {
        return false, oidx, 0;
      }
    }
    oidx' := CloseRun(output, oidx, literal, tokens, pending);
    length := FindMatchLength(input, n, iidx, backref);
    oidx' := PutReference(output, oidx', iidx - backref - 1, length, Flush(tokens, pending));
    ok := true;
  }

  /** The loop variables and both arrays are the state m of the token machine. */
  ghost predicate Mirrors(m: Matcher, iidx: nat, hval: u32, table: seq<u32>, out: seq<byte>, oidx: nat, literal: nat) {
    && m.iidx == iidx && m.hval == hval && m.table == table
    && Holds(out, oidx, m.tokens, m.pending) && literal == |m.pending|
  }

  /** One turn of the loop, lzf/lzf.go:70-164; false where the source returns nil. */
  method Turn(input: seq<byte>, n: u32, hashTable: array<u32>, output: array<byte>,
              iidx: u32, hval: u32, oidx: nat, literal: nat, ghost m: Matcher)
      returns (ok: bool, iidx': u32, hval': u32, oidx': nat, literal': nat)
    requires Shape(input, n, m) && m.iidx < n - 2 && n < MAX_SIZE && output.Length == n + 4
    requires Mirrors(m, iidx, hval, hashTable[..], output[..], oidx, literal)
    modifies hashTable, output
    ensures ok <==> Step(input, n, m).Some?
    ensures ok ==> Mirrors(Step(input, n, m).value, iidx', hval', hashTable[..], output[..], oidx', literal')
  {
    hide Shift, HashSlot, Rehash, EncodeAll, MatchLength, AddByte, Position, Flush;
    ok, iidx', oidx', literal' := true, iidx, oidx, literal;
    hval' := Shift(hval, input[iidx + 2]);
    var hslot := HashSlot(hval');
    var backref := hashTable[hslot];
    hashTable[hslot] := iidx;
    if IsMatch(input, n, iidx, backref) {
      var length;
      ok, oidx', length := EmitMatch(input, n, output, oidx, literal, iidx, backref, m.tokens, m.pending);
      if !ok {
        return;
      }
      literal' := 0;
      iidx' := iidx + length;
      if iidx' >= n - 2 {
        return;
      }
      hval' := Reinsert(input, iidx', hashTable);
    } else {
      if oidx >= n - 4 {
        ok := false;
        return;
      }
      oidx', literal' := PutByte(output, oidx, literal, input[iidx], m.tokens, m.pending);
      iidx' := iidx + 1;
    }
  }

  lemma RunTurn(input: seq<byte>, n: nat, m: Matcher)
    requires Shape(input, n, m) && m.iidx < n - 2 && n < MAX_SIZE
    ensures match Step(input, n, m)
            case None => Run(input, n, m) == None
            case Some(next) => Shape(input, n, next) && Run(input, n, next) == Run(input, n, m) && m.iidx < next.iidx
  {
    hide Step;
    StepKeepsShape(input, n, m);
  }

  lemma RunEnds(input: seq<byte>, n: nat, m: Matcher)
    requires Shape(input, n, m) && n < MAX_SIZE && m.iidx >= n - 2
    requires Run(input, n, m) == Run(input, n, Start(input))
    ensures Run(input, n, Start(input)) == Some(m) && Fits(n, m)
  {
    EncodeNothing();
    RunFits(input, n, Start(input));
  }

  lemma StartMirrors(input: seq<byte>, table: seq<u32>, out: seq<byte>)
    requires |input| >= 2 && |out| >= 5 && table == seq(TABLE_SIZE, _ => 0)
    ensures Mirrors(Start(input), 0, input[1], table, out, 5, 0)
  {
  }

  method Compress(input: seq<byte>) returns (r: Option<seq<byte>>)
    ensures r == Compressed(input)
  {
    hide Run, Step, EncodeAll, Position, Mirrors;
    var inputLength: u32 := Length32(input);
    if inputLength <= 4 || inputLength >= MAX_SIZE {
      return None;
    }
    var output := new byte[inputLength + 4](_ => 0);
    var hashTable := new u32[TABLE_SIZE](_ => 0);
    // input[0] << 8 is a shift of a byte and leaves nothing
    var hval: u32 := input[1];
    var sentinel := inputLength - 2;
    var iidx: u32, oidx: nat, literal: nat := 0, 5, 0;
    ghost var m := Start(input);
    StartMirrors(input, hashTable[..], output[..]);
    while iidx < sentinel
      invariant Shape(input, inputLength, m) && m.iidx == iidx
      invariant Run(input, inputLength, m) == Run(input, inputLength, Start(input))
      invariant Mirrors(m, iidx, hval, hashTable[..], output[..], oidx, literal)
      decreases inputLength - iidx
    {
      RunTurn(input, inputLength, m);
      var ok;
      ghost var next := Step(input, inputLength, m);
      ok, iidx, hval, oidx, literal := Turn(input, inputLength, hashTable, output, iidx, hval, oidx, literal, m);
      if !ok {
        return None;
      }
      m := next.value;
      MirrorsHolds(m, iidx, hval, hashTable[..], output[..], oidx, literal);
    }
    RunEnds(input, inputLength, m);
    MirrorsHolds(m, iidx, hval, hashTable[..], output[..], oidx, literal);
    if oidx - 1 > inputLength {
      return None;
    }
    oidx := PutTail(input, inputLength, output, oidx, literal, m);
    output[0] := inputLength / 0x100_0000 % 0x100;
    output[1] := inputLength / 0x1_0000 % 0x100;
    output[2] := inputLength / 0x100 % 0x100;
    output[3] := inputLength % 0x100;
    assert output[..oidx] == output[..4] + output[4..oidx];
    assert output[..4] == ToBigEndian(inputLength);
    r := Some(output[..oidx]);
  }

  lemma MirrorsHolds(m: Matcher, iidx: nat, hval: u32, table: seq<u32>, out: seq<byte>, oidx: nat, literal: nat)
    requires Mirrors(m, iidx, hval, table, out, oidx, literal)
    ensures m.iidx == iidx && Holds(out, oidx, m.tokens, m.pending) && literal == |m.pending|
  {
  }

  /** The two loops one after the other, as the package's tests use them. */
  method CompressAndDecompress(input: seq<byte>) returns (back: Option<Outcome>)
    ensures back.Some? <==> Compressed(input).Some?
    ensures back.Some? ==> back.value == Decoded(input[..Length32(input)])
  {
    hide Compressed, Decompressed;
    var code := Compress(input);
    if code == None {
      return None;
    }
    CompressedRoundTrips(input);
    var r := Decompress(code.value);
    back := Some(r);
  }
}
