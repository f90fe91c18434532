/** Quoting and unquoting of URLs (url/url.go): two passes over the input, one to size the buffer, one to fill it. */
module Url {
  import opened Bytes

  const SPACE: byte := 0x20
  const PERCENT: byte := 0x25
  const PLUS: byte := 0x2b

  /** The error value carries the offending part of the input. */
  datatype Result = Ok(value: seq<byte>) | EscapeError(part: seq<byte>)

  // ----- which bytes are escaped -----

  /** Everything except A-Z a-z 0-9 _.-/~!()*' */
  predicate ShouldEscape(c: byte) {
    c <= 0x20 || c >= 0x7f ||
    c as char in "<>#%\"{}|\\^[]`?&=+@;:$,"
  }

  /** The fixed part of shouldEscapeCustom; when safe is nil, everything except A-Z a-z 0-9 _.- */
  predicate ShouldEscapeUnlessSafe(c: byte) {
    c <= 0x2c || c >= 0x7b ||
    c as char in "<>#%\"\\^[]`?&=+@;:/"
  }

  predicate Alphanumeric(c: byte) {
    'A' <= c as char <= 'Z' || 'a' <= c as char <= 'z' || '0' <= c as char <= '9'
  }

  /** The comments at url/url.go:35 and 50 are right about what is left alone. */
  lemma LeftAlone(c: byte)
    ensures !ShouldEscape(c) <==> Alphanumeric(c) || c as char in "_.-/~!()*'"
    ensures !ShouldEscapeUnlessSafe(c) <==> Alphanumeric(c) || c as char in "_.-"
  {
  }

  /** The two escapers differ only in this. */
  datatype Policy = Standard | Custom(safe: seq<byte>)

  predicate Escapes(policy: Policy, c: byte) {
    match policy
    case Standard => ShouldEscape(c)
    case Custom(safe) => c !in safe && ShouldEscapeUnlessSafe(c)
  }

  predicate IsHex(c: byte) {
    '0' <= c as char <= '9' || 'a' <= c as char <= 'f' || 'A' <= c as char <= 'F'
  }

  function Unhex(c: byte): (v: byte)
    ensures v < 16
  {
    if '0' <= c as char <= '9' then c - 0x30
    else if 'a' <= c as char <= 'f' then c - 0x61 + 10
    else if 'A' <= c as char <= 'F' then c - 0x41 + 10
    else 0
  }

  /** The table at url/url.go:151. */
  function HexDigit(v: byte): (c: byte)
    requires v < 16
    ensures c as char == "0123456789abcdef"[v]
    ensures IsHex(c) && Unhex(c) == v && c != PLUS && c != PERCENT
  {
    if v < 10 then 0x30 + v else 0x61 + v - 10
  }

  // ----- escaping -----

  function EscapeByte(policy: Policy, doPlus: bool, c: byte): (t: seq<byte>)
    ensures |t| == 1 || |t| == 3
  {
    if c == SPACE && doPlus then [PLUS]
    else if Escapes(policy, c) then [PERCENT, HexDigit(c / 16), HexDigit(c % 16)]
    else [c]
  }

  function EscapeBytes(policy: Policy, doPlus: bool, s: seq<byte>): seq<byte> {
    if s == [] then [] else EscapeByte(policy, doPlus, s[0]) + EscapeBytes(policy, doPlus, s[1..])
  }

  /** A string without bytes to escape is returned as it is, even where a space is safe and would become a plus. */
  function Escape(policy: Policy, doPlus: bool, s: seq<byte>): seq<byte> {
    if forall i :: 0 <= i < |s| ==> !Escapes(policy, s[i]) then s else EscapeBytes(policy, doPlus, s)
  }

  // ----- unescaping -----

  predicate WellEscaped(s: seq<byte>) {
    |s| > 2 && IsHex(s[1]) && IsHex(s[2])
  }

  /** How many bytes the front of s takes, and the byte it stands for. */
  function Width(s: seq<byte>): nat
    requires s != []
  {
    if s[0] == PERCENT then 3 else 1
  }

  function Front(s: seq<byte>, doPlus: bool): byte
    requires s != [] && (s[0] == PERCENT ==> WellEscaped(s))
  {
    if s[0] == PERCENT then Unhex(s[1]) * 16 + Unhex(s[2])
    else if s[0] == PLUS && doPlus then SPACE
    else s[0]
  }

  /** One pass: take the next byte or escape, go on with the rest. */
  function Unescape(s: seq<byte>, doPlus: bool): Result {
    if s == [] then Ok([])
    else if s[0] == PERCENT && !WellEscaped(s) then EscapeError(if |s| > 3 then s[..3] else s)
    else Cons(Front(s, doPlus), Unescape(s[Width(s)..], doPlus))
  }

  function Cons(c: byte, r: Result): Result {
    match r
    case Ok(t) => Ok([c] + t)
    case EscapeError(_) => r
  }

  // ----- round trips -----

  /** A percent sign that the policy leaves alone is no part of an escape, and yet is read as one. */
  predicate RawPercent(policy: Policy, s: seq<byte>) {
    PERCENT in s && !Escapes(policy, PERCENT)
  }

  predicate RawPlus(policy: Policy, doPlus: bool, s: seq<byte>) {
    doPlus && PLUS in s && !Escapes(policy, PLUS)
  }

  /** What is read back for c: a plus that was left alone comes back as a space. */
  function ReadByte(policy: Policy, doPlus: bool, c: byte): byte {
    if c == PLUS && doPlus && !Escapes(policy, PLUS) then SPACE else c
  }

  function ReadBytes(policy: Policy, doPlus: bool, s: seq<byte>): seq<byte> {
    if s == [] then [] else [ReadByte(policy, doPlus, s[0])] + ReadBytes(policy, doPlus, s[1..])
  }

  lemma {:induction false} ReadBytesKeeps(policy: Policy, doPlus: bool, s: seq<byte>)
    ensures ReadBytes(policy, doPlus, s) == s <==> !RawPlus(policy, doPlus, s)
  {
    hide Escapes;
    if s != [] {
      ReadBytesKeeps(policy, doPlus, s[1..]);
      assert s == [s[0]] + s[1..];
      assert ReadBytes(policy, doPlus, s)[0] == ReadByte(policy, doPlus, s[0]);
      assert ReadBytes(policy, doPlus, s)[1..] == ReadBytes(policy, doPlus, s[1..]);
    }
  }

  lemma UnescapeByte(policy: Policy, doPlus: bool, c: byte, rest: seq<byte>)
    requires c == PERCENT ==> Escapes(policy, PERCENT)
    ensures Unescape(EscapeByte(policy, doPlus, c) + rest, doPlus) == Cons(ReadByte(policy, doPlus, c), Unescape(rest, doPlus))
  {
    hide Escapes, Unhex, IsHex, HexDigit;
    var t := EscapeByte(policy, doPlus, c) + rest;
    assert t[0] == EscapeByte(policy, doPlus, c)[0];
    if Escapes(policy, c) && !(c == SPACE && doPlus) {
      assert t[1] == HexDigit(c / 16) && t[2] == HexDigit(c % 16);
    }
    assert t[Width(t)..] == rest;
    assert Front(t, doPlus) == ReadByte(policy, doPlus, c);
  }

  lemma UnescapeNothing(doPlus: bool)
    ensures Unescape([], doPlus) == Ok([])
  {
  }

  lemma {:induction false} UnescapeEscapeBytes(policy: Policy, doPlus: bool, s: seq<byte>)
    requires !RawPercent(policy, s)
    ensures Unescape(EscapeBytes(policy, doPlus, s), doPlus) == Ok(ReadBytes(policy, doPlus, s))
  {
    hide EscapeByte, Unescape, Escapes, ReadByte;
    if s == [] {
      UnescapeNothing(doPlus);
    } else {
      UnescapeEscapeBytes(policy, doPlus, s[1..]);
      UnescapeByte(policy, doPlus, s[0], EscapeBytes(policy, doPlus, s[1..]));
    }
  }

  lemma {:induction false} UnescapePlain(policy: Policy, doPlus: bool, s: seq<byte>)
    requires !RawPercent(policy, s) && forall i :: 0 <= i < |s| ==> !Escapes(policy, s[i])
    ensures Unescape(s, doPlus) == Ok(ReadBytes(policy, doPlus, s))
  {
    hide Escapes;
    if s != [] {
      UnescapePlain(policy, doPlus, s[1..]);
    }
  }

  /** Three bytes are read as one at every percent sign. */
  lemma {:induction false} UnescapeShortens(s: seq<byte>, doPlus: bool)
    requires Unescape(s, doPlus).Ok?
    ensures |Unescape(s, doPlus).value| <= |s| - if PERCENT in s then 2 else 0
  {
    if s != [] {
      UnescapeShortens(s[Width(s)..], doPlus);
    }
  }

  /** Only a hex digit of the source is written as one. */
  lemma HexFront(policy: Policy, doPlus: bool, s: seq<byte>)
    requires var t := EscapeBytes(policy, doPlus, s); t != [] && IsHex(t[0])
    ensures s != [] && EscapeBytes(policy, doPlus, s) == [s[0]] + EscapeBytes(policy, doPlus, s[1..])
  {
    hide Escapes, HexDigit;
    assert EscapeBytes(policy, doPlus, s)[0] == EscapeByte(policy, doPlus, s[0])[0];
  }

  /** What is read as one byte at a percent sign left alone are three bytes of the source. */
  lemma RawEscape(policy: Policy, doPlus: bool, s: seq<byte>)
    requires s != [] && s[0] == PERCENT && !Escapes(policy, PERCENT)
    requires Unescape(EscapeBytes(policy, doPlus, s), doPlus).Ok?
    ensures |s| >= 3 && Unescape(EscapeBytes(policy, doPlus, s[3..]), doPlus).Ok?
    ensures |Unescape(EscapeBytes(policy, doPlus, s), doPlus).value| ==
            1 + |Unescape(EscapeBytes(policy, doPlus, s[3..]), doPlus).value|
  {
    hide Escapes, EscapeBytes, IsHex, Front;
    var t := EscapeBytes(policy, doPlus, s);
    RawFront(policy, doPlus, s);
    var u := EscapeBytes(policy, doPlus, s[1..]);
    assert t[1] == u[0] && t[2] == u[1];
    HexFront(policy, doPlus, s[1..]);
    assert s[1..][1..] == s[2..];
    var v := EscapeBytes(policy, doPlus, s[2..]);
    assert u[1] == v[0];
    HexFront(policy, doPlus, s[2..]);
    assert s[2..][1..] == s[3..];
    assert t[3..] == EscapeBytes(policy, doPlus, s[3..]);
  }

  lemma RawFront(policy: Policy, doPlus: bool, s: seq<byte>)
    requires s != [] && s[0] == PERCENT && !Escapes(policy, PERCENT)
    ensures EscapeBytes(policy, doPlus, s) == [PERCENT] + EscapeBytes(policy, doPlus, s[1..])
  {
  }

  lemma {:induction false} EscapedShortens(policy: Policy, doPlus: bool, s: seq<byte>)
    requires Unescape(EscapeBytes(policy, doPlus, s), doPlus).Ok?
    ensures |Unescape(EscapeBytes(policy, doPlus, s), doPlus).value| <= |s| - if RawPercent(policy, s) then 2 else 0
    decreases |s|
  {
    hide EscapeByte, Unescape, Escapes, ReadByte;
    if s == [] {
      UnescapeNothing(doPlus);
    } else if s[0] == PERCENT && !Escapes(policy, PERCENT) {
      RawEscape(policy, doPlus, s);
      EscapedShortens(policy, doPlus, s[3..]);
    } else {
      UnescapeByte(policy, doPlus, s[0], EscapeBytes(policy, doPlus, s[1..]));
      EscapedShortens(policy, doPlus, s[1..]);
    }
  }

  /** One string comes back exactly when it holds no percent sign and, in the plus form, no plus that the
      policy leaves alone. */
  lemma RoundTripOf(policy: Policy, doPlus: bool, s: seq<byte>)
    ensures Unescape(Escape(policy, doPlus, s), doPlus) == Ok(s) <==> !RawPercent(policy, s) && !RawPlus(policy, doPlus, s)
  {
    hide Escapes, Unescape, EscapeBytes, RawPlus;
    var plain := forall i :: 0 <= i < |s| ==> !Escapes(policy, s[i]);
    if RawPercent(policy, s) {
      if Unescape(Escape(policy, doPlus, s), doPlus).Ok? {
        if plain { UnescapeShortens(s, doPlus); } else { EscapedShortens(policy, doPlus, s); }
      }
    } else {
      ReadBytesKeeps(policy, doPlus, s);
      if plain { UnescapePlain(policy, doPlus, s); } else { UnescapeEscapeBytes(policy, doPlus, s); }
    }
  }

  lemma RoundTrip(policy: Policy, doPlus: bool, s: seq<byte>)
    requires Escapes(policy, PERCENT) && (doPlus ==> Escapes(policy, PLUS))
    ensures Unescape(Escape(policy, doPlus, s), doPlus) == Ok(s)
  {
    RoundTripOf(policy, doPlus, s);
  }

  /** Unquote undoes Quote and UnquotePlus undoes QuotePlus, on every byte string. */
  lemma StandardRoundTrip(doPlus: bool, s: seq<byte>)
    ensures Unescape(Escape(Standard, doPlus, s), doPlus) == Ok(s)
  {
    RoundTripOf(Standard, doPlus, s);
  }

  /** The custom forms are undone exactly on the strings that do not hold a percent sign or, in the plus
      form, a plus that is also a safe byte. */
  lemma CustomRoundTripOf(safe: seq<byte>, doPlus: bool, s: seq<byte>)
    ensures Unescape(Escape(Custom(safe), doPlus, s), doPlus) == Ok(s)
            <==> !(PERCENT in safe && PERCENT in s) && !(doPlus && PLUS in safe && PLUS in s)
  {
    RoundTripOf(Custom(safe), doPlus, s);
  }

  /** So they are undone on every byte string exactly when no safe byte is a percent sign, nor, in the plus
      form, a plus. */
  lemma CustomRoundTripExactly(safe: seq<byte>, doPlus: bool)
    ensures (forall s :: Unescape(Escape(Custom(safe), doPlus, s), doPlus) == Ok(s))
            <==> PERCENT !in safe && (doPlus ==> PLUS !in safe)
  {
    forall s
      ensures Unescape(Escape(Custom(safe), doPlus, s), doPlus) == Ok(s)
              <==> !(PERCENT in safe && PERCENT in s) && !(doPlus && PLUS in safe && PLUS in s)
    {
      CustomRoundTripOf(safe, doPlus, s);
    }
    if !(PERCENT !in safe && (doPlus ==> PLUS !in safe)) {
      var c := if PERCENT in safe then PERCENT else PLUS;
      assert c in [c];
      assert Unescape(Escape(Custom(safe), doPlus, [c]), doPlus) != Ok([c]);
    }
  }

  /** Quoted text has no byte left that needs quoting, but for the percent signs and pluses put in. */
  lemma {:induction false} EscapeBytesAlphabet(policy: Policy, doPlus: bool, s: seq<byte>)
    ensures forall c :: c in EscapeBytes(policy, doPlus, s) ==> !Escapes(policy, c) || c == PERCENT || (doPlus && c == PLUS)
  {
    if s != [] {
      EscapeBytesAlphabet(policy, doPlus, s[1..]);
      HexDigitIsPlain(policy, s[0] / 16);
      HexDigitIsPlain(policy, s[0] % 16);
    }
  }

  lemma HexDigitIsPlain(policy: Policy, v: byte)
    requires v < 16
    ensures !Escapes(policy, HexDigit(v))
  {
  }

  lemma EscapeAlphabet(policy: Policy, doPlus: bool, s: seq<byte>)
    ensures forall c :: c in Escape(policy, doPlus, s) ==> !Escapes(policy, c) || c == PERCENT || (doPlus && c == PLUS)
  {
    EscapeBytesAlphabet(policy, doPlus, s);
  }

  // ----- what unescaping reads -----

  /** How a writer may put down one byte: as it is, as a plus for a space, or in digits of either case. */
  datatype Choice = AsIs | AsPlus | AsDigits(upperHigh: bool, upperLow: bool)

  function Digit(v: byte, upper: bool): byte
    requires v < 16
  {
    (if upper then "0123456789ABCDEF"[v] else "0123456789abcdef"[v]) as int
  }

  predicate Allowed(c: byte, choice: Choice, doPlus: bool) {
    match choice
    case AsIs => c != 0x25 && (doPlus ==> c != 0x2b)
    case AsPlus => doPlus && c == 0x20
    case AsDigits(_, _) => true
  }

  function WrittenByte(c: byte, choice: Choice): (e: seq<byte>) {
    match choice
    case AsIs => [c]
    case AsPlus => [0x2b]
    case AsDigits(upperHigh, upperLow) => [0x25, Digit(c / 16, upperHigh), Digit(c % 16, upperLow)]
  }

  function Written(t: seq<byte>, choices: seq<Choice>): seq<byte>
    requires |t| == |choices|
  {
    if t == [] then [] else WrittenByte(t[0], choices[0]) + Written(t[1..], choices[1..])
  }

  /** e is one of the ways to write t. */
  ghost predicate Encoding(t: seq<byte>, e: seq<byte>, doPlus: bool) {
    exists choices: seq<Choice> ::
      |choices| == |t| && (forall i :: 0 <= i < |t| ==> Allowed(t[i], choices[i], doPlus)) && e == Written(t, choices)
  }

  /** Digits of either case are read as their value, and nothing else is a digit. */
  lemma DigitIsRead(v: byte, upper: bool)
    requires v < 16
    ensures IsHex(Digit(v, upper)) && Unhex(Digit(v, upper)) == v
  {
  }

  lemma ReadIsDigit(c: byte) returns (upper: bool)
    requires IsHex(c)
    ensures c == Digit(Unhex(c), upper)
  {
    upper := 'A' <= c as char <= 'F';
  }

  lemma ReadWrittenByte(c: byte, choice: Choice, rest: seq<byte>, doPlus: bool)
    requires Allowed(c, choice, doPlus)
    ensures Unescape(WrittenByte(c, choice) + rest, doPlus) == Cons(c, Unescape(rest, doPlus))
  {
    hide Digit, Unhex, IsHex;
    var t := WrittenByte(c, choice) + rest;
    assert t[Width(t)..] == rest;
    if choice.AsDigits? {
      DigitIsRead(c / 16, choice.upperHigh);
      DigitIsRead(c % 16, choice.upperLow);
      assert t[1] == Digit(c / 16, choice.upperHigh) && t[2] == Digit(c % 16, choice.upperLow);
    }
    assert Front(t, doPlus) == c;
  }

  lemma {:induction false} ReadWritten(t: seq<byte>, choices: seq<Choice>, doPlus: bool)
    requires |t| == |choices| && forall i :: 0 <= i < |t| ==> Allowed(t[i], choices[i], doPlus)
    ensures Unescape(Written(t, choices), doPlus) == Ok(t)
  {
    hide Unescape, Allowed, WrittenByte;
    if t == [] {
      UnescapeNothing(doPlus);
    } else {
      ReadWritten(t[1..], choices[1..], doPlus);
      ReadWrittenByte(t[0], choices[0], Written(t[1..], choices[1..]), doPlus);
      assert [t[0]] + t[1..] == t;
    }
  }

  /** The way the front of e was written. */
  lemma FrontWasWritten(e: seq<byte>, doPlus: bool) returns (choice: Choice)
    requires e != [] && (e[0] == PERCENT ==> WellEscaped(e))
    ensures Allowed(Front(e, doPlus), choice, doPlus)
    ensures WrittenByte(Front(e, doPlus), choice) == e[..Width(e)]
  {
    hide Digit, Unhex, IsHex;
    if e[0] == PERCENT {
      var upperHigh := ReadIsDigit(e[1]);
      var upperLow := ReadIsDigit(e[2]);
      choice := AsDigits(upperHigh, upperLow);
    } else {
      choice := if e[0] == PLUS && doPlus then AsPlus else AsIs;
    }
  }

  lemma {:induction false} ReadWasWritten(e: seq<byte>, doPlus: bool) returns (choices: seq<Choice>)
    requires Unescape(e, doPlus).Ok?
    ensures var t := Unescape(e, doPlus).value;
            && |choices| == |t| && (forall i :: 0 <= i < |t| ==> Allowed(t[i], choices[i], doPlus))
            && e == Written(t, choices)
    decreases |e|
  {
    hide Allowed, WrittenByte, Front;
    if e == [] {
      choices := [];
    } else {
      var choice := FrontWasWritten(e, doPlus);
      var rest := ReadWasWritten(e[Width(e)..], doPlus);
      choices := [choice] + rest;
      var t := Unescape(e, doPlus).value;
      assert t[1..] == Unescape(e[Width(e)..], doPlus).value && choices[1..] == rest;
      assert e == e[..Width(e)] + e[Width(e)..];
    }
  }

  /** What is read is t exactly when the input is one of the ways to write t. */
  lemma UnescapeExactly(e: seq<byte>, t: seq<byte>, doPlus: bool)
    ensures Unescape(e, doPlus) == Ok(t) <==> Encoding(t, e, doPlus)
  {
    hide Unescape, Written, Allowed;
    if Unescape(e, doPlus) == Ok(t) {
      var choices := ReadWasWritten(e, doPlus);
    }
    if Encoding(t, e, doPlus) {
      var choices: seq<Choice> :| |choices| == |t| && (forall i :: 0 <= i < |t| ==> Allowed(t[i], choices[i], doPlus))
                                  && e == Written(t, choices);
      ReadWritten(t, choices, doPlus);
    }
  }

  /** How escaping writes a byte: a space as a plus in the plus form, else what the policy escapes in
      lower-case digits. */
  function Chosen(policy: Policy, doPlus: bool, c: byte): Choice {
    if c == 0x20 && doPlus then AsPlus else if Escapes(policy, c) then AsDigits(false, false) else AsIs
  }

  lemma {:induction false} EscapeBytesIsWritten(policy: Policy, doPlus: bool, s: seq<byte>, choices: seq<Choice>)
    requires |choices| == |s| && forall i :: 0 <= i < |s| ==> choices[i] == Chosen(policy, doPlus, s[i])
    ensures EscapeBytes(policy, doPlus, s) == Written(s, choices)
  {
    hide Escapes;
    if s != [] {
      EscapeBytesIsWritten(policy, doPlus, s[1..], choices[1..]);
    }
  }

  lemma {:induction false} WrittenAsIs(s: seq<byte>, choices: seq<Choice>)
    requires |choices| == |s| && forall i :: 0 <= i < |s| ==> choices[i].AsIs?
    ensures Written(s, choices) == s
  {
    if s != [] {
      WrittenAsIs(s[1..], choices[1..]);
    }
  }

  /** Escaping writes every byte in its chosen way, except that a string of bytes that the policy leaves
      alone stays as it is: then spaces, if the policy leaves them alone, are not turned into pluses. */
  lemma EscapeExactly(policy: Policy, doPlus: bool, s: seq<byte>, choices: seq<Choice>)
    requires |choices| == |s| && forall i :: 0 <= i < |s| ==> choices[i] == Chosen(policy, doPlus, s[i])
    ensures Escape(policy, doPlus, s) ==
            if forall i :: 0 <= i < |s| ==> !Escapes(policy, s[i]) then s else Written(s, choices)
    ensures !doPlus || Escapes(policy, 0x20) ==> Escape(policy, doPlus, s) == Written(s, choices)
  {
    hide Escapes;
    if forall i :: 0 <= i < |s| ==> !Escapes(policy, s[i]) {
      if !doPlus || Escapes(policy, 0x20) { WrittenAsIs(s, choices); }
    } else {
      EscapeBytesIsWritten(policy, doPlus, s, choices);
    }
  }

  // ----- when unescaping fails -----

  lemma {:induction false} UnescapeConcat(s: seq<byte>, t: seq<byte>, doPlus: bool)
    requires Unescape(s, doPlus).Ok?
    ensures Unescape(s + t, doPlus) ==
            (match Unescape(t, doPlus) case Ok(v) => Ok(Unescape(s, doPlus).value + v) case e => e)
  {
    hide Front, IsHex;
    if s == [] {
      assert s + t == t;
    } else {
      var n := Width(s);
      SameFront(s, t, doPlus);
      assert (s + t)[n..] == s[n..] + t;
      UnescapeConcat(s[n..], t, doPlus);
      if Unescape(t, doPlus).Ok? {
        ConsConcat(Front(s, doPlus), Unescape(s[n..], doPlus), Unescape(t, doPlus));
      }
    }
  }

  lemma SameFront(s: seq<byte>, t: seq<byte>, doPlus: bool)
    requires s != [] && (s[0] == PERCENT ==> WellEscaped(s))
    ensures (s + t)[0] == s[0] && (s[0] == PERCENT ==> WellEscaped(s + t))
    ensures Front(s + t, doPlus) == Front(s, doPlus) && Width(s + t) == Width(s) <= |s|
  {
  }

  lemma ConsConcat(c: byte, u: Result, v: Result)
    requires u.Ok? && v.Ok?
    ensures [c] + (u.value + v.value) == ([c] + u.value) + v.value
  {
  }

  /** An escape is malformed at k, and everything before it scans. */
  ghost predicate MalformedAt(s: seq<byte>, doPlus: bool, k: nat) {
    k < |s| && Unescape(s[..k], doPlus).Ok? && s[k] == PERCENT && !WellEscaped(s[k..])
  }

  lemma {:induction false} FindMalformed(s: seq<byte>, doPlus: bool) returns (k: nat)
    requires Unescape(s, doPlus).EscapeError?
    ensures MalformedAt(s, doPlus, k)
  {
    if s[0] == PERCENT && !WellEscaped(s) {
      k := 0;
    } else {
      var n := Width(s);
      k := FindMalformed(s[n..], doPlus);
      assert s[..n + k] == s[..n] + s[n..][..k];
      assert s[n + k..] == s[n..][k..];
      assert s[..n][n..] == [];
      UnescapeConcat(s[..n], s[n..][..k], doPlus);
      k := n + k;
    }
  }

  /** It fails exactly when the scan reaches a percent sign without two hex digits after it; the error
      shows at most three bytes from there. */
  lemma UnescapeFailsExactly(s: seq<byte>, doPlus: bool)
    ensures Unescape(s, doPlus).EscapeError? <==> exists k :: MalformedAt(s, doPlus, k)
    ensures forall k: nat :: MalformedAt(s, doPlus, k) ==>
              Unescape(s, doPlus) == EscapeError(if |s| - k > 3 then s[k..k + 3] else s[k..])
  {
    forall k: nat | MalformedAt(s, doPlus, k)
      ensures Unescape(s, doPlus) == EscapeError(if |s| - k > 3 then s[k..k + 3] else s[k..])
    {
      assert s == s[..k] + s[k..];
      UnescapeConcat(s[..k], s[k..], doPlus);
      if |s| - k > 3 { assert s[k..][..3] == s[k..k + 3]; }
    }
    if Unescape(s, doPlus).EscapeError? {
      var k := FindMalformed(s, doPlus);
    }
  }

  // ----- the loops -----

  /** The loop at url/url.go:52-56 over the safe bytes. */
  method ShouldEscapeCustom(c: byte, safe: seq<byte>) returns (r: bool)
    ensures r == Escapes(Custom(safe), c)
  {
    for i := 0 to |safe|
      invariant c !in safe[..i]
    {
      if c == safe[i] {
        return false;
      }
    }
    assert safe[..|safe|] == safe;
    r := ShouldEscapeUnlessSafe(c);
  }

  /** shouldEscape or shouldEscapeCustom */
  method Decide(policy: Policy, c: byte) returns (r: bool)
    ensures r == Escapes(policy, c)
  {
    match policy
    case Standard => r := ShouldEscape(c);
    case Custom(safe) => r := ShouldEscapeCustom(c, safe);
  }

  lemma {:induction false} EscapeBytesConcat(policy: Policy, doPlus: bool, s: seq<byte>, t: seq<byte>)
    ensures EscapeBytes(policy, doPlus, s + t) == EscapeBytes(policy, doPlus, s) + EscapeBytes(policy, doPlus, t)
  {
    hide EscapeByte;
    if s == [] {
      assert s + t == t;
    } else {
      assert (s + t)[1..] == s[1..] + t;
      EscapeBytesConcat(policy, doPlus, s[1..], t);
    }
  }

  lemma EscapeBytesNext(policy: Policy, doPlus: bool, s: seq<byte>, i: nat)
    requires i < |s|
    ensures EscapeBytes(policy, doPlus, s[..i + 1]) == EscapeBytes(policy, doPlus, s[..i]) + EscapeByte(policy, doPlus, s[i])
  {
    hide EscapeByte;
    assert s[..i + 1] == s[..i] + [s[i]];
    EscapeBytesConcat(policy, doPlus, s[..i], [s[i]]);
    assert EscapeBytes(policy, doPlus, [s[i]]) == EscapeByte(policy, doPlus, s[i]) + [];
  }

  /** The size the first pass finds is the size of what the second pass writes. */
  lemma EscapeBytesGrow(policy: Policy, doPlus: bool, s: seq<byte>, i: nat)
    requires i <= |s|
    ensures |EscapeBytes(policy, doPlus, s[..i])| <= |EscapeBytes(policy, doPlus, s)|
  {
    assert s == s[..i] + s[i..];
    EscapeBytesConcat(policy, doPlus, s[..i], s[i..]);
  }

  /** urlEscape and urlEscapeCustom, url/url.go:151-223 */
  method UrlEscape(s: seq<byte>, doPlus: bool, policy: Policy) returns (r: seq<byte>)
    ensures r == Escape(policy, doPlus, s)
  {
    hide EscapeByte, Escapes;
    var spaceCount, hexCount := 0, 0;
    for i := 0 to |s|
      invariant 0 <= spaceCount && 0 <= hexCount
      invariant spaceCount == 0 && hexCount == 0 <==> forall k :: 0 <= k < i ==> !Escapes(policy, s[k])
      invariant i + 2 * hexCount == |EscapeBytes(policy, doPlus, s[..i])|
    {
      var c := s[i];
      var escapes := Decide(policy, c);
      EscapeBytesNext(policy, doPlus, s, i);
      EscapeByteSize(policy, doPlus, c);
      if escapes {
        if c == SPACE && doPlus {
          spaceCount := spaceCount + 1;
        } else {
          hexCount := hexCount + 1;
        }
      }
    }
    assert s[..|s|] == s;
    if spaceCount == 0 && hexCount == 0 {
      return s;
    }
    var t := new byte[|s| + 2 * hexCount](_ => 0);
    var j := 0;
    for i := 0 to |s|
      invariant j == |EscapeBytes(policy, doPlus, s[..i])| <= t.Length
      invariant t[..j] == EscapeBytes(policy, doPlus, s[..i])
    {
      EscapeBytesNext(policy, doPlus, s, i);
      EscapeBytesGrow(policy, doPlus, s, i + 1);
      j := WriteEscaped(policy, doPlus, s[i], t, j);
    }
    r := t[..];
  }

  lemma EscapeByteSize(policy: Policy, doPlus: bool, c: byte)
    ensures |EscapeByte(policy, doPlus, c)| == if Escapes(policy, c) && !(c == SPACE && doPlus) then 3 else 1
  {
  }

  /** The switch at url/url.go:171-183 and 208-220. */
  method WriteEscaped(policy: Policy, doPlus: bool, c: byte, t: array<byte>, j: nat) returns (j': nat)
    requires j + |EscapeByte(policy, doPlus, c)| <= t.Length
    modifies t
    ensures j' == j + |EscapeByte(policy, doPlus, c)|
    ensures t[..j'] == old(t[..j]) + EscapeByte(policy, doPlus, c)
  {
    hide Escapes;
    var escapes := Decide(policy, c);
    if c == SPACE && doPlus {
      t[j] := PLUS;
      j' := j + 1;
    } else if escapes {
      t[j] := PERCENT;
      t[j + 1] := HexDigit(c / 16);
      t[j + 2] := HexDigit(c % 16);
      j' := j + 3;
    } else {
      t[j] := c;
      j' := j + 1;
    }
  }

  /** The first pass, url/url.go:99-120: checks the escapes and counts them. */
  method Scan(s: seq<byte>, doPlus: bool) returns (error: bool, part: seq<byte>, n: nat, hasPlus: bool)
    ensures error ==> Unescape(s, doPlus) == EscapeError(part)
    ensures !error ==> Unescape(s, doPlus).Ok? && |Unescape(s, doPlus).value| == |s| - 2 * n
    ensures !error && n == 0 && !hasPlus ==> Unescape(s, doPlus).value == s
  {
    hide Unescape;
    n, hasPlus, error, part := 0, false, false, [];
    var i := 0;
    UnescapeNothing(doPlus);
    while i < |s|
      invariant 0 <= i <= |s| && (hasPlus ==> doPlus)
      invariant Unescape(s[..i], doPlus).Ok? && |Unescape(s[..i], doPlus).value| == i - 2 * n
      invariant n == 0 && !hasPlus ==> Unescape(s[..i], doPlus).value == s[..i]
    {
      UnescapeAt(s, doPlus, i);
      assert s[..i + 1] == s[..i] + [s[i]];
      if s[i] == PERCENT {
        n := n + 1;
        if i + 2 >= |s| || !IsHex(s[i + 1]) || !IsHex(s[i + 2]) {
          part := s[i..];
          if |part| > 3 {
            part := part[0..3];
          }
          error := true;
          return;
        }
        i := i + 3;
      } else if s[i] == PLUS {
        hasPlus := doPlus;
        i := i + 1;
      } else {
        i := i + 1;
      }
    }
    assert s[..|s|] == s;
  }

  /** How the result so far grows at index i, or why it fails there. */
  lemma UnescapeAt(s: seq<byte>, doPlus: bool, i: nat)
    requires i < |s| && Unescape(s[..i], doPlus).Ok?
    ensures var so := Unescape(s[..i], doPlus).value;
            if s[i] == PERCENT then
              if !WellEscaped(s[i..]) then Unescape(s, doPlus) == EscapeError(if |s[i..]| > 3 then s[i..][..3] else s[i..])
              else Unescape(s[..i + 3], doPlus) == Ok(so + [Front(s[i..], doPlus)])
            else Unescape(s[..i + 1], doPlus) == Ok(so + [Front(s[i..], doPlus)])
  {
    hide Unhex, IsHex;
    if s[i] == PERCENT && !WellEscaped(s[i..]) {
      assert s == s[..i] + s[i..];
      UnescapeConcat(s[..i], s[i..], doPlus);
    } else {
      var n := Width(s[i..]);
      var t := s[i..][..n];
      assert s[..i + n] == s[..i] + t && s[i..] == t + s[i..][n..];
      UnescapeConcat(s[..i], t, doPlus);
      SameFront(t, s[i..][n..], doPlus);
      UnescapeOne(t, doPlus);
    }
  }

  lemma UnescapeOne(t: seq<byte>, doPlus: bool)
    requires t != [] && |t| == Width(t) && (t[0] == PERCENT ==> WellEscaped(t))
    ensures Unescape(t, doPlus) == Ok([Front(t, doPlus)])
  {
    hide Front, IsHex;
    assert t[Width(t)..] == [];
  }

  lemma UnescapeGrows(s: seq<byte>, doPlus: bool, i: nat)
    requires i <= |s| && Unescape(s[..i], doPlus).Ok? && Unescape(s, doPlus).Ok?
    ensures |Unescape(s[..i], doPlus).value| + (if i < |s| then 1 else 0) <= |Unescape(s, doPlus).value|
  {
    hide Unhex, IsHex;
    assert s == s[..i] + s[i..];
    UnescapeConcat(s[..i], s[i..], doPlus);
    if i < |s| { UnescapeNotEmpty(s[i..], doPlus); }
  }

  lemma UnescapeNotEmpty(s: seq<byte>, doPlus: bool)
    requires s != [] && Unescape(s, doPlus).Ok?
    ensures Unescape(s, doPlus).value != []
  {
    hide Unhex, IsHex;
  }

  /** urlUnescape, url/url.go:98-149 */
  method UrlUnescape(s: seq<byte>, doPlus: bool) returns (r: Result)
    ensures r == Unescape(s, doPlus)
  {
    hide Unescape;
    var error, part, n, hasPlus := Scan(s, doPlus);
    if error {
      return EscapeError(part);
    }
    if n == 0 && !hasPlus {
      return Ok(s);
    }
    var t := new byte[|s| - 2 * n](_ => 0);
    var i, j := 0, 0;
    UnescapeNothing(doPlus);
    while i < |s|
      invariant 0 <= i <= |s|
      invariant Unescape(s[..i], doPlus).Ok? && j == |Unescape(s[..i], doPlus).value| <= t.Length
      invariant t[..j] == Unescape(s[..i], doPlus).value
    {
      UnescapeAt(s, doPlus, i);
      UnescapeGrows(s, doPlus, i);
      if s[i] == PERCENT {
        t[j] := Unhex(s[i + 1]) * 16 + Unhex(s[i + 2]);
        i := i + 3;
      } else if s[i] == PLUS {
        t[j] := if doPlus then SPACE else PLUS;
        i := i + 1;
      } else {
        t[j] := s[i];
        i := i + 1;
      }
      j := j + 1;
    }
    assert s[..|s|] == s;
    assert t[..j] == t[..];
    r := Ok(t[..]);
  }
}
