/**
  The LZF stream as a language of tokens (lzf/lzf.go:28-50): what one token means,
  how it is written in bytes, and how the first token of a byte string is read back.
 */
module LzfFormat {
  import opened Bytes

  const MAX_LITERAL := 32
  const MAX_OFFSET := 8192
  const MAX_BACKREF := 264
  const MAX_SIZE := 0x4000_0000

  /** uint32(len(input)) */
  function Length32(input: seq<byte>): (n: u32)
    ensures n <= |input|
  {
    |input| % 0x1_0000_0000
  }

  /** offset counts back from the last byte produced: 0 repeats that byte. */
  datatype Token = Literal(bytes: seq<byte>) | Backref(offset: nat, count: nat)

  predicate WellFormed(t: Token) {
    match t
    case Literal(bytes) => 1 <= |bytes| <= MAX_LITERAL
    case Backref(offset, count) => offset < MAX_OFFSET && 3 <= count <= MAX_BACKREF
  }

  predicate AllWellFormed(ts: seq<Token>) {
    forall i :: 0 <= i < |ts| ==> WellFormed(ts[i])
  }

  function Size(t: Token): nat {
    match t
    case Literal(bytes) => |bytes|
    case Backref(_, count) => count
  }

  // ----- meaning -----

  /** Copies byte by byte, so a copy longer than its distance reads what it has just written. */
  function CopyBack(out: seq<byte>, offset: nat, count: nat): seq<byte>
    requires offset < |out|
    decreases count
  {
    if count == 0 then out
    else CopyBack(out + [out[|out| - 1 - offset]], offset, count - 1)
  }

  predicate Applicable(out: seq<byte>, t: Token) {
    t.Backref? ==> t.offset < |out|
  }

  function Apply(out: seq<byte>, t: Token): seq<byte>
    requires Applicable(out, t)
  {
    match t
    case Literal(bytes) => out + bytes
    case Backref(offset, count) => CopyBack(out, offset, count)
  }

  /** What a list of tokens makes of the bytes already produced; None when one of them refers
      to before the start. */
  function Meaning(ts: seq<Token>, out: seq<byte>): Option<seq<byte>>
    decreases |ts|
  {
    if ts == [] then Some(out)
    else if !Applicable(out, ts[0]) then None
    else Meaning(ts[1..], Apply(out, ts[0]))
  }

  /** A copy is the one extension by count bytes that has period offset + 1. */
  lemma {:induction false} CopyBackIsPeriodic(out: seq<byte>, offset: nat, count: nat, r: seq<byte>)
    requires offset < |out|
    ensures r == CopyBack(out, offset, count) <==>
            |r| == |out| + count && out <= r &&
            forall k :: |out| <= k < |r| ==> r[k] == r[k - 1 - offset]
    decreases count
  {
    if count > 0 {
      var out' := out + [out[|out| - 1 - offset]];
      CopyBackIsPeriodic(out', offset, count - 1, r);
      if |r| == |out| + count && out <= r && forall k :: |out| <= k < |r| ==> r[k] == r[k - 1 - offset] {
        assert r[|out|] == r[|out| - 1 - offset] == out[|out| - 1 - offset];
        assert out' <= r;
      }
      if out' <= r {
        assert r[|out|] == out'[|out|];
        assert r[|out| - 1 - offset] == out'[|out| - 1 - offset];
      }
    }
  }

  lemma CopyBackSize(out: seq<byte>, offset: nat, count: nat)
    requires offset < |out|
    ensures |CopyBack(out, offset, count)| == |out| + count && out <= CopyBack(out, offset, count)
  {
    CopyBackIsPeriodic(out, offset, count, CopyBack(out, offset, count));
  }

  lemma ApplySize(out: seq<byte>, t: Token)
    requires Applicable(out, t)
    ensures |Apply(out, t)| == |out| + Size(t) && out <= Apply(out, t)
  {
    if t.Backref? {
      CopyBackSize(out, t.offset, t.count);
    }
  }

  lemma {:induction false} MeaningAppend(ts: seq<Token>, us: seq<Token>, out: seq<byte>)
    ensures Meaning(ts + us, out) ==
            (match Meaning(ts, out) case None => None case Some(mid) => Meaning(us, mid))
    decreases |ts|
  {
    if ts == [] {
      assert ts + us == us;
    } else {
      assert (ts + us)[1..] == ts[1..] + us;
      if Applicable(out, ts[0]) {
        MeaningAppend(ts[1..], us, Apply(out, ts[0]));
      }
    }
  }

  lemma {:induction false} MeaningGrows(ts: seq<Token>, out: seq<byte>)
    ensures Meaning(ts, out).Some? ==> out <= Meaning(ts, out).value
    decreases |ts|
  {
    if ts != [] && Applicable(out, ts[0]) {
      ApplySize(out, ts[0]);
      MeaningGrows(ts[1..], Apply(out, ts[0]));
    }
  }

  // ----- bytes -----

  function Encode(t: Token): (code: seq<byte>)
    requires WellFormed(t)
    ensures |code| >= 2
  {
    match t
    case Literal(bytes) => [|bytes| - 1] + bytes
    case Backref(offset, count) =>
      if count - 2 < 7 then [offset / 256 + (count - 2) * 32, offset % 256]
      else [offset / 256 + 7 * 32, count - 9, offset % 256]
  }

  function EncodeAll(ts: seq<Token>): seq<byte>
    requires AllWellFormed(ts)
  {
    if ts == [] then [] else Encode(ts[0]) + EncodeAll(ts[1..])
  }

  /** The first token of a nonempty byte string and the number of bytes it takes, None when it is cut off. */
  function Parse(code: seq<byte>): Option<(Token, nat)>
    requires code != []
  {
    var ctrl: int := code[0];
    if ctrl < 32 then
      if |code| < ctrl + 2 then None else Some((Literal(code[1..ctrl + 2]), ctrl + 2))
    else if ctrl / 32 < 7 then
      if |code| < 2 then None else Some((Backref(ctrl % 32 * 256 + code[1], ctrl / 32 + 2), 2))
    else
      if |code| < 3 then None else Some((Backref(ctrl % 32 * 256 + code[2], 9 + code[1] as int), 3))
  }

  /** Every well-formed token is read back from its own bytes, whatever follows. */
  lemma ParseEncode(t: Token, rest: seq<byte>)
    requires WellFormed(t)
    ensures Parse(Encode(t) + rest) == Some((t, |Encode(t)|))
  {
    var code := Encode(t) + rest;
    match t
    case Literal(bytes) =>
      assert code[1..|bytes| + 1] == bytes;
    case Backref(offset, count) =>
      assert 0 <= offset / 256 < 32;
      assert code[0] == Encode(t)[0];
      assert code[1] == Encode(t)[1];
  }

  /** Whatever is read is a well-formed token, and its bytes are exactly the ones it was read from. */
  lemma EncodeParse(code: seq<byte>)
    requires code != [] && Parse(code).Some?
    ensures var (t, k) := Parse(code).value;
            WellFormed(t) && k <= |code| && code[..k] == Encode(t)
  {
    var (t, k) := Parse(code).value;
    if t.Backref? {
      assert t.offset / 256 == code[0] % 32;
      assert t.offset % 256 == code[k - 1];
    }
  }

  lemma {:induction false} EncodeAllAppend(ts: seq<Token>, t: Token)
    requires AllWellFormed(ts) && WellFormed(t)
    ensures AllWellFormed(ts + [t])
    ensures EncodeAll(ts + [t]) == EncodeAll(ts) + Encode(t)
    decreases |ts|
  {
    hide Encode;
    if ts == [] {
      assert ts + [t] == [t];
      assert EncodeAll([t]) == Encode(t) + EncodeAll([]);
    } else {
      assert (ts + [t])[1..] == ts[1..] + [t];
      EncodeAllAppend(ts[1..], t);
    }
  }

  /** A token takes at most two bytes for each byte it produces. */
  lemma {:induction false} CodeSize(ts: seq<Token>, out: seq<byte>)
    requires AllWellFormed(ts) && Meaning(ts, out).Some?
    ensures |EncodeAll(ts)| <= 2 * (|Meaning(ts, out).value| - |out|)
    decreases |ts|
  {
    hide Encode, Apply;
    if ts != [] {
      TokenSize(ts[0]);
      ApplySize(out, ts[0]);
      CodeSize(ts[1..], Apply(out, ts[0]));
    }
  }

  lemma TokenSize(t: Token)
    requires WellFormed(t)
    ensures |Encode(t)| <= 2 * Size(t)
  {
  }

  /** No byte string is the code of two token lists. */
  lemma {:induction false} EncodeAllInjective(ts: seq<Token>, us: seq<Token>)
    requires AllWellFormed(ts) && AllWellFormed(us)
    requires EncodeAll(ts) == EncodeAll(us)
    ensures ts == us
    decreases |ts|
  {
    hide Encode, Parse;
    if ts != [] && us != [] {
      ParseEncode(ts[0], EncodeAll(ts[1..]));
      ParseEncode(us[0], EncodeAll(us[1..]));
      var k := |Encode(ts[0])|;
      assert EncodeAll(ts)[k..] == EncodeAll(ts[1..]);
      assert EncodeAll(us)[k..] == EncodeAll(us[1..]);
      EncodeAllInjective(ts[1..], us[1..]);
      assert ts == [ts[0]] + ts[1..] && us == [us[0]] + us[1..];
    }
  }
}
