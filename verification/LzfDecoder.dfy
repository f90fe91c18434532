/** Decompress (lzf/lzf.go:198-303) and the recursive token decoder it refines. */
module LzfDecoder {
  import opened Bytes
  import opened LzfFormat

  /** What a call of Decompress does: return bytes, return nil, or die on an index out of range. */
  datatype Outcome = Decoded(bytes: seq<byte>) | Rejected | IndexFailure

  datatype Verdict = Proceed | Reject | Fault

  /** The token at the front of `code`, with `out` produced so far. Fault: the high part of an offset
      reaches to before the start, so the uint32 difference at lzf/lzf.go:250 wraps around and the check
      after it lets the access through. */
  function Judge(code: seq<byte>, out: seq<byte>, limit: nat): Verdict
    requires code != []
  {
    match Parse(code)
    case None => Reject
    case Some((t, _)) =>
      if |out| + Size(t) > limit then Reject
      else if Applicable(out, t) then Proceed
      else if |out| <= t.offset / 256 * 256 then Fault
      else Reject
  }

  /** The token decoder. */
  function Expand(code: seq<byte>, out: seq<byte>, limit: nat): (o: Outcome)
    requires |out| <= limit
    ensures o.Decoded? ==> |o.bytes| <= limit
    decreases |code|
  {
    if code == [] then Decoded(out)
    else
      match Judge(code, out, limit)
      case Reject => Rejected
      case Fault => IndexFailure
      case Proceed =>
        var (t, k) := Parse(code).value;
        EncodeParse(code);
        ApplySize(out, t);
        Expand(code[k..], Apply(out, t), limit)
  }

  /** What Decompress does. Of an input of 2^32 bytes or more only uint32(len(input)) bytes are seen. */
  function Decompressed(input: seq<byte>): Outcome {
    var n := Length32(input);
    if n <= 4 || BigEndian(input) >= MAX_SIZE then Rejected
    else
      var limit := BigEndian(input);
      match Expand(input[4..n], [], limit)
      case Decoded(r) => Decoded(r + Zeros(limit - |r|))
      case o => o
  }

  // ----- what the decoder accepts, in terms of tokens alone -----

  ghost predicate Tokenizes(ts: seq<Token>, code: seq<byte>, out: seq<byte>, r: seq<byte>) {
    AllWellFormed(ts) && EncodeAll(ts) == code && Meaning(ts, out) == Some(r)
  }

  /** The decoder gets through the tokens ts, and then stands before rest with mid produced. */
  ghost predicate Reaches(ts: seq<Token>, rest: seq<byte>, mid: seq<byte>, code: seq<byte>, out: seq<byte>, limit: nat) {
    AllWellFormed(ts) && EncodeAll(ts) + rest == code && Meaning(ts, out) == Some(mid) && |mid| <= limit
  }

  lemma ExpandOneToken(t: Token, rest: seq<byte>, out: seq<byte>, limit: nat)
    requires WellFormed(t) && Applicable(out, t) && |out| + Size(t) <= limit
    ensures |Apply(out, t)| <= limit
    ensures Expand(Encode(t) + rest, out, limit) == Expand(rest, Apply(out, t), limit)
  {
    hide Parse, Encode;
    ParseEncode(t, rest);
    ApplySize(out, t);
    assert (Encode(t) + rest)[|Encode(t)|..] == rest;
  }

  lemma {:induction false} ExpandOverTokens(ts: seq<Token>, rest: seq<byte>, out: seq<byte>, mid: seq<byte>, limit: nat)
    requires AllWellFormed(ts) && Meaning(ts, out) == Some(mid) && |mid| <= limit
    ensures |out| <= limit
    ensures Expand(EncodeAll(ts) + rest, out, limit) == Expand(rest, mid, limit)
    decreases |ts|
  {
    hide Parse, Encode, Expand;
    MeaningGrows(ts, out);
    if ts == [] {
      assert EncodeAll(ts) + rest == rest;
    } else {
      var t, us := ts[0], ts[1..];
      assert EncodeAll(ts) + rest == Encode(t) + (EncodeAll(us) + rest);
      ApplySize(out, t);
      MeaningGrows(us, Apply(out, t));
      ExpandOneToken(t, EncodeAll(us) + rest, out, limit);
      ExpandOverTokens(us, rest, Apply(out, t), mid, limit);
    }
  }

  /** One step of the decoder, seen as taking a token off the code. */
  lemma ExpandProceeds(code: seq<byte>, out: seq<byte>, limit: nat) returns (t: Token, rest: seq<byte>)
    requires code != [] && |out| <= limit && Judge(code, out, limit) == Proceed
    ensures WellFormed(t) && code == Encode(t) + rest
    ensures Applicable(out, t) && |Apply(out, t)| == |out| + Size(t) <= limit
    ensures Expand(code, out, limit) == Expand(rest, Apply(out, t), limit)
  {
    hide Parse, Encode;
    EncodeParse(code);
    ApplySize(out, Parse(code).value.0);
    var k := Parse(code).value.1;
    t, rest := Parse(code).value.0, code[k..];
    assert code == code[..k] + code[k..];
  }

  /** However the decoder ends, some tokens take it to its last judgement. */
  lemma {:induction false} ExpandStops(code: seq<byte>, out: seq<byte>, limit: nat)
      returns (ts: seq<Token>, rest: seq<byte>, mid: seq<byte>)
    requires |out| <= limit
    ensures Reaches(ts, rest, mid, code, out, limit)
    ensures Expand(code, out, limit) ==
            if rest == [] then Decoded(mid)
            else if Judge(rest, mid, limit) == Fault then IndexFailure
            else Rejected
    ensures rest != [] ==> Judge(rest, mid, limit) != Proceed
    decreases |code|
  {
    hide Parse, Encode, Judge;
    if code == [] || Judge(code, out, limit) != Proceed {
      ts, rest, mid := [], code, out;
      assert EncodeAll(ts) + rest == code;
    } else {
      hide Expand;
      var t, tail := ExpandProceeds(code, out, limit);
      ApplySize(out, t);
      var us;
      us, rest, mid := ExpandStops(tail, Apply(out, t), limit);
      ts := [t] + us;
      assert ts[1..] == us;
      assert EncodeAll(ts) + rest == Encode(t) + (EncodeAll(us) + rest);
    }
  }

  /** Accepted are exactly the token streams that stay within the declared length. */
  lemma ExpandAccepts(code: seq<byte>, out: seq<byte>, limit: nat, r: seq<byte>)
    requires |out| <= limit
    ensures Expand(code, out, limit) == Decoded(r) <==>
            |r| <= limit && exists ts :: Tokenizes(ts, code, out, r)
  {
    hide Parse, Encode, Judge;
    if Expand(code, out, limit) == Decoded(r) {
      var ts, rest, mid := ExpandStops(code, out, limit);
      assert EncodeAll(ts) + rest == EncodeAll(ts);
      assert Tokenizes(ts, code, out, r);
    }
    if |r| <= limit && exists ts :: Tokenizes(ts, code, out, r) {
      var ts :| Tokenizes(ts, code, out, r);
      ExpandOverTokens(ts, [], out, r, limit);
      assert EncodeAll(ts) + [] == code;
    }
  }

  ghost predicate StopsAt(v: Verdict, code: seq<byte>, out: seq<byte>, limit: nat) {
    exists ts, rest, mid ::
      Reaches(ts, rest, mid, code, out, limit) && rest != [] && Judge(rest, mid, limit) == v
  }

  /** Nil and the index failure are each reached on exactly the inputs whose tokens lead to such a verdict. */
  lemma ExpandFails(code: seq<byte>, out: seq<byte>, limit: nat)
    requires |out| <= limit
    ensures Expand(code, out, limit) == Rejected <==> StopsAt(Reject, code, out, limit)
    ensures Expand(code, out, limit) == IndexFailure <==> StopsAt(Fault, code, out, limit)
  {
    hide Parse, Encode;
    var ts, rest, mid := ExpandStops(code, out, limit);
    forall us, rest', mid' | Reaches(us, rest', mid', code, out, limit) && rest' != []
      ensures Judge(rest', mid', limit) == Reject ==> Expand(code, out, limit) == Rejected
      ensures Judge(rest', mid', limit) == Fault ==> Expand(code, out, limit) == IndexFailure
    {
      ExpandOverTokens(us, rest', out, mid', limit);
    }
  }

  /** Wherever the decoder stands, the index into the input is at most 4 + 2^31: no uint32 index wraps
      around, nor does the sum at lzf/lzf.go:232. */
  lemma IndexIsSmall(ts: seq<Token>, rest: seq<byte>, mid: seq<byte>, code: seq<byte>, limit: nat)
    requires Reaches(ts, rest, mid, code, [], limit) && limit < MAX_SIZE
    ensures 4 + |EncodeAll(ts)| <= 4 + 2 * |mid| < 4 + 0x8000_0000
  {
    CodeSize(ts, []);
  }

  /** An index failure comes from a back reference only. */
  lemma FaultIsBackref(code: seq<byte>, out: seq<byte>, limit: nat)
    requires code != []
    ensures Judge(code, out, limit) == Fault <==>
            && Parse(code).Some? && Parse(code).value.0.Backref?
            && var t := Parse(code).value.0;
               |out| + t.count <= limit && |out| <= t.offset - t.offset % 256
  {
    hide Parse;
  }

  /** The whole call: bytes come back exactly for a header below the limit followed by a token
      stream that fits it, and then they are the meaning of the stream padded with zeros. */
  lemma DecompressedAccepts(input: seq<byte>, r: seq<byte>)
    ensures var n := Length32(input);
            Decompressed(input) == Decoded(r) <==>
            && n > 4 && |r| == BigEndian(input) < MAX_SIZE
            && exists ts, m :: Tokenizes(ts, input[4..n], [], m) && |m| <= |r| && r == m + Zeros(|r| - |m|)
  {
    var n := Length32(input);
    if n > 4 && BigEndian(input) < MAX_SIZE {
      var code, limit := input[4..n], BigEndian(input);
      var o := Expand(code, [], limit);
      if o.Decoded? {
        ExpandAccepts(code, [], limit, o.bytes);
        var ts :| Tokenizes(ts, code, [], o.bytes);
      }
      if |r| == limit && exists ts, m :: Tokenizes(ts, code, [], m) && |m| <= |r| && r == m + Zeros(|r| - |m|) {
        var ts, m :| Tokenizes(ts, code, [], m) && |m| <= |r| && r == m + Zeros(|r| - |m|);
        ExpandAccepts(code, [], limit, m);
      }
    }
  }

  lemma DecompressedFails(input: seq<byte>)
    ensures var n := Length32(input);
            && (Decompressed(input) == IndexFailure <==>
                  n > 4 && BigEndian(input) < MAX_SIZE && StopsAt(Fault, input[4..n], [], BigEndian(input)))
            && (Decompressed(input) == Rejected <==>
                  n <= 4 || BigEndian(input) >= MAX_SIZE || StopsAt(Reject, input[4..n], [], BigEndian(input)))
  {
    var n := Length32(input);
    if n > 4 && BigEndian(input) < MAX_SIZE {
      var code, limit := input[4..n], BigEndian(input);
      ExpandFails(code, [], limit);
      var o := Expand(code, [], limit);
      if o.Decoded? {
        ExpandAccepts(code, [], limit, o.bytes);
      }
    }
  }

  /** The check at lzf/lzf.go:276 is meant to answer nil to a reference before the start. It does not
      here: with nothing produced yet, the offset 0 makes the difference at line 250 wrap around. */
  lemma ReferenceBeforeStartCanFault()
    ensures Decompressed([0, 0, 0, 3, 0x20, 0]) == IndexFailure
  {
    var input: seq<byte> := [0, 0, 0, 3, 0x20, 0];
    assert input[4..6] == [0x20, 0];
    assert Parse(input[4..6]) == Some((Backref(0, 3), 2));
  }

  /** Declared lengths are accepted below 2^30, here with a stream of one literal byte, and from 2^30 on
      nothing is. */
  lemma DeclaredLengthLimit(b: byte)
    ensures Decompressed([0x3f, 0xff, 0xff, 0xff, 0, b]) == Decoded([b] + Zeros(0x3fff_fffe))
    ensures forall input: seq<byte> :: |input| >= 4 && BigEndian(input) >= 0x4000_0000 ==> Decompressed(input) == Rejected
  {
    hide Zeros, Expand;
    var input: seq<byte> := [0x3f, 0xff, 0xff, 0xff, 0, b];
    var code := input[4..6];
    assert code == [0, b];
    ExpandLiteral(code, 0, [], 0x3fff_ffff);
    assert code[0..] == code && code[1..2] == [b] && code[2..] == [] && [] + [b] == [b];
    ExpandNothing([b], 0x3fff_ffff);
  }

  /** A worked stream: three literal bytes, a copy in two bytes, one in three that overlaps its target,
      and padding. */
  lemma WorkedStream(header: seq<byte>, code: seq<byte>, abc: seq<byte>)
    requires header == [0, 0, 0, 17] && abc == [97, 98, 99]
    requires code == [2, 97, 98, 99] + [0x20, 2] + [0xe0, 0, 5]
    ensures Decompressed(header + code) == Decoded(abc + abc + abc + abc + abc + [0, 0])
  {
    hide Meaning, EncodeAll, Decompressed;
    var ts := [Literal(abc), Backref(2, 3), Backref(5, 9)];
    WorkedCode(ts, code, abc);
    WorkedMeaning(ts, abc);
    var input, m := header + code, abc + abc + abc + abc + abc;
    assert Length32(input) == 13 && input[4..13] == code;
    assert Tokenizes(ts, input[4..13], [], m);
    assert Zeros(2) == [0, 0];
    DecompressedAccepts(input, m + [0, 0]);
  }

  lemma WorkedCode(ts: seq<Token>, code: seq<byte>, abc: seq<byte>)
    requires abc == [97, 98, 99] && ts == [Literal(abc), Backref(2, 3), Backref(5, 9)]
    requires code == [2, 97, 98, 99] + [0x20, 2] + [0xe0, 0, 5]
    ensures AllWellFormed(ts) && EncodeAll(ts) == code
  {
    var rest, last := ts[1..], ts[2..];
    assert EncodeAll(last) == Encode(last[0]) + EncodeAll([]) by { assert last[1..] == []; }
    assert rest[1..] == last;
  }

  lemma WorkedMeaning(ts: seq<Token>, abc: seq<byte>)
    requires |abc| == 3 && ts == [Literal(abc), Backref(2, 3), Backref(5, 9)]
    ensures Meaning(ts, []) == Some(abc + abc + abc + abc + abc)
  {
    hide CopyBack;
    var rest, last := ts[1..], ts[2..];
    assert [] + abc == abc && rest[1..] == last && last[1..] == [];
    CopyBackIsPeriodic(abc, 2, 3, abc + abc);
    CopyBackIsPeriodic(abc + abc, 5, 9, abc + abc + abc + abc + abc);
    assert Meaning([], abc + abc + abc + abc + abc) == Some(abc + abc + abc + abc + abc);
    assert Meaning(last, abc + abc) == Some(abc + abc + abc + abc + abc);
    assert Meaning(rest, abc) == Some(abc + abc + abc + abc + abc);
  }

  // ----- the loops -----

  function Wrap(x: int): u32 {
    x % 0x1_0000_0000
  }

  lemma WrapOnce(x: int)
    requires -0x1_0000_0000 <= x < 0x2_0000_0000
    ensures Wrap(x) == if x < 0 then x + 0x1_0000_0000 else if x < 0x1_0000_0000 then x else x - 0x1_0000_0000
  {
  }

  /** lzf/lzf.go:236-244: copies count bytes of a literal. */
  method CopyLiteral(input: seq<byte>, iidx: u32, output: array<byte>, oidx: u32, count: u32)
    requires 0 < count && iidx + count <= Length32(input) && oidx + count <= output.Length < MAX_SIZE
    modifies output
    ensures output[..oidx + count] == old(output[..oidx]) + input[iidx..iidx + count]
    ensures output[oidx + count..] == old(output[oidx + count..])
  {
    hide Length32;
    ghost var was, after := output[..oidx], output[oidx + count..];
    var i: u32, o: u32, ctrl: u32 := iidx, oidx, count;
    assert was + input[iidx..i] == was;
    while true
      invariant 0 < ctrl <= count && o == oidx + count - ctrl && i == iidx + count - ctrl
      invariant output[..o] == was + input[iidx..i]
      invariant output[oidx + count..] == after
      decreases ctrl
    {
      PutAt(output, o, input[i]);
      assert output[oidx + count..] == output[o + 1..][ctrl - 1..];
      SliceNext(was, input, iidx, i);
      i, o, ctrl := i + 1, o + 1, ctrl - 1;
      if ctrl == 0 {
        break;
      }
    }
  }

  lemma SliceOfPrefix(s: seq<byte>, from: nat, to: nat, n: nat)
    requires from <= to <= n <= |s|
    ensures s[..n][from..to] == s[from..to]
  {
  }

  lemma SliceNext(was: seq<byte>, input: seq<byte>, from: nat, i: nat)
    requires from <= i < |input|
    ensures was + input[from..i] + [input[i]] == was + input[from..i + 1]
  {
  }

  /** output[oidx] = b */
  method PutAt(output: array<byte>, oidx: nat, b: byte)
    requires oidx < output.Length
    modifies output
    ensures output[..oidx + 1] == old(output[..oidx]) + [b]
    ensures output[oidx + 1..] == old(output[oidx + 1..])
  {
    output[oidx] := b;
  }

  lemma CopyBackStep(out: seq<byte>, offset: nat, count: nat, b: byte)
    requires offset < |out| && count > 0 && b == out[|out| - 1 - offset]
    ensures CopyBack(out, offset, count) == CopyBack(out + [b], offset, count - 1)
  {
  }

  /** output[oidx] = output[backref] */
  method CopyByte(output: array<byte>, backref: nat, oidx: nat)
    requires backref < oidx < output.Length
    modifies output
    ensures output[..oidx + 1] == old(output[..oidx]) + [old(output[..oidx])[backref]]
    ensures output[oidx + 1..] == old(output[oidx + 1..])
  {
    output[oidx] := output[backref];
  }

  /** lzf/lzf.go:280-295: two single copies and a loop of `length` more. */
  method CopyReference(output: array<byte>, backref: nat, oidx: nat, length: nat)
    requires 0 < length && backref < oidx && oidx + length + 2 <= output.Length
    modifies output
    ensures output[..oidx + length + 2] == CopyBack(old(output[..oidx]), oidx - backref - 1, length + 2)
    ensures output[oidx + length + 2..] == old(output[oidx + length + 2..])
  {
    hide CopyBack;
    ghost var was := output[..oidx];
    ghost var offset := oidx - backref - 1;
    var b, o, l := backref, oidx, length;
    CopyBackStep(output[..o], offset, length + 2, output[..o][b]);
    CopyByte(output, b, o);
    o, b := o + 1, b + 1;
    CopyBackStep(output[..o], offset, length + 1, output[..o][b]);
    CopyByte(output, b, o);
    o, b := o + 1, b + 1;
    assert output[oidx + length + 2..] == output[o..][length..];
    while true
      invariant 0 < l <= length && o == oidx + length + 2 - l && b == o - 1 - offset
      invariant CopyBack(output[..o], offset, l) == CopyBack(was, offset, length + 2)
      invariant output[oidx + length + 2..] == old(output[oidx + length + 2..])
      decreases l
    {
      CopyBackStep(output[..o], offset, l, output[..o][b]);
      CopyByte(output, b, o);
      assert output[oidx + length + 2..] == output[o + 1..][l - 1..];
      o, b, l := o + 1, b + 1, l - 1;
      if l == 0 {
        break;
      }
    }
    CopyBackNothing(output[..o], offset);
  }

  lemma CopyBackNothing(out: seq<byte>, offset: nat)
    requires offset < |out|
    ensures CopyBack(out, offset, 0) == out
  {
  }

  lemma ExpandNothing(out: seq<byte>, limit: nat)
    requires |out| <= limit
    ensures Expand([], out, limit) == Decoded(out)
  {
  }

  /** What Expand does with a literal, by indices into the input. */
  lemma ExpandLiteral(input: seq<byte>, i: nat, out: seq<byte>, limit: nat)
    requires i < |input| && input[i] < 32 && |out| <= limit
    ensures var count, e := input[i] as int + 1, Expand(input[i..], out, limit);
            if |out| + count > limit || i + 1 + count > |input| then e == Rejected
            else e == Expand(input[i + 1 + count..], out + input[i + 1..i + 1 + count], limit)
  {
    hide Parse, Encode;
    var count, code := input[i] as int + 1, input[i..];
    ParseLiteral(code);
    if i + 1 + count <= |input| {
      assert code[1..count + 1] == input[i + 1..i + 1 + count];
      assert code[count + 1..] == input[i + 1 + count..];
    }
  }

  lemma ParseLiteral(code: seq<byte>)
    requires code != [] && code[0] < 32
    ensures Parse(code) == if |code| < code[0] as int + 2 then None else Some((Literal(code[1..code[0] + 2]), code[0] as int + 2))
  {
  }

  /** What Expand does with a back reference whose fields have been read from ctrl, the extra length
      byte if any, and lo; next is the index after them. */
  lemma ExpandBackref(input: seq<byte>, i: nat, out: seq<byte>, limit: nat)
    requires i < |input| && input[i] >= 32 && |out| <= limit
    ensures var extended, e := input[i] / 32 == 7, Expand(input[i..], out, limit);
            var next := i + (if extended then 3 else 2);
            if next > |input| then e == Rejected
            else
              var count := if extended then 9 + input[i + 1] as int else input[i] / 32 + 2;
              var high := input[i] as int % 32 * 256;
              var offset := high + input[next - 1] as int;
              if |out| + count > limit then e == Rejected
              else if offset < |out| then
                |CopyBack(out, offset, count)| == |out| + count && e == Expand(input[next..], CopyBack(out, offset, count), limit)
              else if |out| <= high then e == IndexFailure
              else e == Rejected
  {
    hide CopyBack;
    var code := input[i..];
    assert code[0] == input[i];
    var next := i + (if input[i] / 32 == 7 then 3 else 2);
    if next <= |input| {
      assert code[next - i - 1] == input[next - 1] && code[1] == input[i + 1];
      var (t, k) := Parse(code).value;
      assert k == next - i && code[k..] == input[next..];
      assert t.offset / 256 == input[i] % 32;
      if t.offset < |out| { CopyBackSize(out, t.offset, t.count); }
    }
  }

  /** What one turn of the loop at lzf/lzf.go:217-299 does: go on, with at most two bytes read for each
      byte written, or leave with nil or an index failure. */
  ghost predicate Turn(v: Verdict, seen: seq<byte>, i: nat, out: seq<byte>, i': nat, out': seq<byte>, limit: nat)
    requires i <= |seen| && i' <= |seen| && |out| <= limit && |out'| <= limit
  {
    var o := Expand(seen[i..], out, limit);
    match v
    case Proceed => i < i' && i' - i <= 2 * (|out'| - |out|) && o == Expand(seen[i'..], out', limit)
    case Reject => o == Rejected
    case Fault => o == IndexFailure
  }

  /** lzf/lzf.go:225-244, with the control byte at i still to be read. */
  method LiteralTurn(input: seq<byte>, i: u32, output: array<byte>, oidx: u32) returns (v: Verdict, i': u32, oidx': u32)
    requires i < Length32(input) && input[i] < 32 && i <= 4 + 2 * oidx && oidx <= output.Length < MAX_SIZE
    modifies output
    ensures i' <= Length32(input) && oidx <= oidx' <= output.Length
    ensures Turn(v, input[..Length32(input)], i, old(output[..oidx]), i', output[..oidx'], output.Length)
    ensures v == Proceed ==> output[oidx'..] == old(output[oidx'..])
  {
    hide Expand, Length32;
    ExpandLiteral(input[..Length32(input)], i, output[..oidx], output.Length);
    var ctrl: u32 := input[i];
    i', oidx' := i + 1, oidx;
    ctrl := ctrl + 1;
    if oidx + ctrl > output.Length {
      return Reject, i', oidx';
    }
    var end: u32 := i' + ctrl;
    if end > Length32(input) {
      return Reject, i', oidx';
    }
    SliceOfPrefix(input, i + 1, end, Length32(input));
    CopyLiteral(input, i', output, oidx, ctrl);
    i', oidx' := end, oidx + ctrl;
    v := Proceed;
  }

  /** lzf/lzf.go:248-295, with the control byte at i still to be read. */
  method ReferenceTurn(input: seq<byte>, i: u32, output: array<byte>, oidx: u32) returns (v: Verdict, i': u32, oidx': u32)
    requires i < Length32(input) && input[i] >= 32 && i <= 4 + 2 * oidx && oidx <= output.Length < MAX_SIZE
    modifies output
    ensures i' <= Length32(input) && oidx <= oidx' <= output.Length
    ensures Turn(v, input[..Length32(input)], i, old(output[..oidx]), i', output[..oidx'], output.Length)
    ensures v == Proceed ==> output[oidx'..] == old(output[oidx'..])
  {
    hide Expand, CopyBack, Wrap;
    ExpandBackref(input[..Length32(input)], i, output[..oidx], output.Length);
    var inputLength := Length32(input);
    i', oidx' := i + 1, oidx;
    var ctrl: u32 := input[i];
    var length: u32 := ctrl / 32;
    var high: u32 := ctrl % 32 * 256;
    WrapOnce(oidx - high - 1);
    var backref: int := Wrap(oidx - high - 1);
    if i' >= inputLength {
      return Reject, i', oidx';
    }
    if length == 7 {
      length := length + input[i'];
      i' := i' + 1;
      if i' >= inputLength {
        return Reject, i', oidx';
      }
    }
    backref := backref - input[i'];
    i' := i' + 1;
    if oidx + length + 2 > output.Length {
      return Reject, i', oidx';
    }
    if backref < 0 {
      return Reject, i', oidx';
    }
    if backref >= output.Length {
      return Fault, i', oidx';
    }
    CopyReference(output, backref, oidx, length);
    oidx' := oidx + length + 2;
    v := Proceed;
  }

  /** The declared length bounds the output, and with it the index into the input. */
  method Decompress(input: seq<byte>) returns (r: Outcome)
    ensures r == Decompressed(input)
  {
    hide Expand;
    var inputLength: u32 := Length32(input);
    if inputLength <= 4 {
      return Rejected;
    }
    var outputLength: u32 := BigEndian(input);
    if outputLength >= MAX_SIZE {
      return Rejected;
    }
    var output := new byte[outputLength](_ => 0);
    var iidx: u32, oidx: u32 := 4, 0;
    ghost var seen := input[..inputLength];
    assert output[..0] == [];
    assert seen[4..] == input[4..inputLength];
    while iidx < inputLength
      invariant iidx <= inputLength && oidx <= outputLength == output.Length
      invariant iidx <= 4 + 2 * oidx
      invariant Expand(seen[iidx..], output[..oidx], outputLength) == Expand(seen[4..], [], outputLength)
      invariant output[oidx..] == Zeros(outputLength - oidx)
      decreases inputLength - iidx
    {
      ghost var before := oidx;
      var v;
      if input[iidx] < 32 {
        v, iidx, oidx := LiteralTurn(input, iidx, output, oidx);
      } else {
        v, iidx, oidx := ReferenceTurn(input, iidx, output, oidx);
      }
      if v == Reject {
        return Rejected;
      } else if v == Fault {
        return IndexFailure;
      }
      assert output[oidx..] == Zeros(outputLength - before)[oidx - before..];
    }
    assert seen[iidx..] == [];
    ExpandNothing(output[..oidx], outputLength);
    assert output[..] == output[..oidx] + output[oidx..];
    r := Decoded(output[..]);
  }
}
