/** Escaping text for a JSON string (RFC 8259 section 7) into a bounded buffer. */
module JsonEscape {
  import opened Packets
  import opened Options

  const QUOTE: byte := 34
  const BACKSLASH: byte := 92
  const NEWLINE: byte := 10
  const RETURN: byte := 13
  const TAB: byte := 9
  const LETTER_N: byte := 110
  const LETTER_R: byte := 114
  const LETTER_T: byte := 116
  const LETTER_U: byte := 117
  const ZERO: byte := 48

  const HEX: seq<byte> := [48, 49, 50, 51, 52, 53, 54, 55, 56, 57, 97, 98, 99, 100, 101, 102]

  // ---------- escaping ----------

  function EscapeByte(c: byte): (r: seq<byte>)
    ensures |r| == 1 || |r| == 2 || |r| == 6
  {
    if c == QUOTE || c == BACKSLASH then [BACKSLASH, c]
    else if c == NEWLINE then [BACKSLASH, LETTER_N]
    else if c == RETURN then [BACKSLASH, LETTER_R]
    else if c == TAB then [BACKSLASH, LETTER_T]
    else if c < 0x20 then [BACKSLASH, LETTER_U, ZERO, ZERO, HEX[c / 16], HEX[c % 16]]
    else [c]
  }

  function Escape(text: seq<byte>): seq<byte> {
    if text == [] then [] else Escape(text[..|text| - 1]) + EscapeByte(text[|text| - 1])
  }

  // ---------- unescaping, as RFC 8259 has it ----------

  function HexDigit(c: byte): Option<nat> {
    if 48 <= c <= 57 then Some(c - 48)
    else if 97 <= c <= 102 then Some(c - 87)
    else if 65 <= c <= 70 then Some(c - 55)
    else None
  }

  // The first character of the inside of a JSON string, and how many bytes it takes; nothing for a
  // raw control byte, an unescaped quote, an unknown or cut escape, or a \u escape beyond ASCII.
  function FirstChar(s: seq<byte>): Option<(byte, nat)>
    requires s != []
  {
    if s[0] < 0x20 || s[0] == QUOTE then None
    else if s[0] != BACKSLASH then Some((s[0], 1))
    else if |s| < 2 then None
    else if s[1] == QUOTE || s[1] == BACKSLASH || s[1] == 47 then Some((s[1], 2))
    else if s[1] == 98 then Some((8, 2))
    else if s[1] == 102 then Some((12, 2))
    else if s[1] == LETTER_N then Some((NEWLINE, 2))
    else if s[1] == LETTER_R then Some((RETURN, 2))
    else if s[1] == LETTER_T then Some((TAB, 2))
    else if s[1] == LETTER_U && |s| >= 6 then
      match (HexDigit(s[2]), HexDigit(s[3]), HexDigit(s[4]), HexDigit(s[5]))
      case (Some(a), Some(b), Some(c), Some(d)) =>
        var code := ((a * 16 + b) * 16 + c) * 16 + d;
        if code < 0x80 then Some((code, 6)) else None
      case _ => None
    else None
  }

  function Unescape(s: seq<byte>): Option<seq<byte>> {
    if s == [] then Some([])
    else
      match FirstChar(s)
      case None => None
      case Some((c, n)) =>
        if n == 0 || n > |s| then None
        else
          match Unescape(s[n..])
          case None => None
          case Some(rest) => Some([c] + rest)
  }

  // ---------- escaping is inverted by unescaping ----------

  lemma {:induction false} EscapeAppend(a: seq<byte>, b: seq<byte>)
    ensures Escape(a + b) == Escape(a) + Escape(b)
  {
    hide EscapeByte;
    if b == [] {
      assert a + b == a;
    } else {
      EscapeAppend(a, b[..|b| - 1]);
      assert (a + b)[..|a + b| - 1] == a + b[..|b| - 1];
    }
  }

  lemma {:induction false} FirstOfEscaped(c: byte, rest: seq<byte>)
    ensures FirstChar(EscapeByte(c) + rest) == Some((c, |EscapeByte(c)|))
  {
    var s := EscapeByte(c) + rest;
    if c < 0x20 && |EscapeByte(c)| == 6 {
      HexRoundTrip(c / 16);
      HexRoundTrip(c % 16);
    }
  }

  lemma {:induction false} HexRoundTrip(d: nat)
    requires d < 16
    ensures HexDigit(HEX[d]) == Some(d)
  {
  }

  // Whatever the text, its escape is the inside of a legal JSON string (no raw control byte, no
  // unescaped quote) and stands for that very text.
  lemma {:induction false} UnescapeEscape(text: seq<byte>)
    ensures Unescape(Escape(text)) == Some(text)
  {
    if text == [] {
    } else {
      var c, rest := text[0], text[1..];
      UnescapeEscape(rest);
      assert text == [c] + rest;
      EscapeAppend([c], rest);
      assert Escape([c]) == Escape([c][..0]) + EscapeByte(c) == EscapeByte(c);
      FirstOfEscaped(c, Escape(rest));
      assert (EscapeByte(c) + Escape(rest))[|EscapeByte(c)|..] == Escape(rest);
    }
  }

  lemma {:induction false} EscapeByteClean(c: byte)
    ensures forall i :: 0 <= i < |EscapeByte(c)| ==> EscapeByte(c)[i] >= 0x20
  {
  }

  // Only what has to be escaped is: quote, backslash, newline, return and tab as a pair, every other
  // control byte as six bytes without capitals, everything else as itself.
  lemma {:induction false} EscapeShape(c: byte)
    ensures |EscapeByte(c)| == if c as int in {34, 92, 10, 13, 9} then 2 else if c < 32 then 6 else 1
    ensures forall i :: 0 <= i < |EscapeByte(c)| && |EscapeByte(c)| > 1 && c != 92 ==> !(65 <= EscapeByte(c)[i] <= 90)
  {
    assert forall k :: 0 <= k < 16 ==> !(65 <= HEX[k] <= 90);
  }

  lemma {:induction false} EscapeClean(text: seq<byte>)
    ensures forall i :: 0 <= i < |Escape(text)| ==> Escape(text)[i] >= 0x20
  {
    if text == [] {
    } else {
      EscapeByteClean(text[|text| - 1]);
      hide EscapeByte;
      EscapeClean(text[..|text| - 1]);
    }
  }

  // ---------- the bounded buffer ----------

  // The text of a C string stops at its first zero byte.
  ghost function TextLen(input: seq<byte>): (n: nat)
    requires 0 in input
    ensures n < |input| && input[n] == 0 && forall i :: 0 <= i < n ==> input[i] != 0
  {
    if input[0] == 0 then 0 else 1 + TextLen(input[1..])
  }

  lemma {:induction false} EscapeGrows(text: seq<byte>, m: nat, n: nat)
    requires m <= n <= |text|
    ensures |Escape(text[..m])| <= |Escape(text[..n])|
  {
    assert text[..n] == text[..m] + text[m..n];
    EscapeAppend(text[..m], text[m..n]);
  }

  // The longest prefix of the text whose escape leaves room for the terminating zero byte.
  ghost predicate LongestFit(text: seq<byte>, n: nat, size: nat) {
    n <= |text| && |Escape(text[..n])| < size && forall m :: n < m <= |text| ==> |Escape(text[..m])| >= size
  }

  lemma {:induction false} FitEnds(text: seq<byte>, n: nat, size: nat)
    requires n <= |text| && |Escape(text[..n])| < size
    requires n == |text| || |Escape(text[..n])| + |EscapeByte(text[n])| >= size
    ensures LongestFit(text, n, size)
  {
    forall m | n < m <= |text|
      ensures |Escape(text[..m])| >= size
    {
      EscapeNext(text, n);
      EscapeGrows(text, n + 1, m);
    }
  }

  lemma {:induction false} EscapeNext(text: seq<byte>, n: nat)
    requires n < |text|
    ensures Escape(text[..n + 1]) == Escape(text[..n]) + EscapeByte(text[n])
  {
    assert text[..n + 1][..n] == text[..n];
  }

  // The buffer holds the escape of the first n bytes of the text, then a terminator, then what was
  // there before.
  ghost predicate Written(text: seq<byte>, n: nat, before: seq<byte>, after: seq<byte>) {
    && n <= |text| && |Escape(text[..n])| < |before| == |after|
    && after == Escape(text[..n]) + [0] + before[|Escape(text[..n])| + 1..]
  }

  method PutPair(output: array<byte>, at: nat, letter: byte)
    requires at + 1 < output.Length
    modifies output
    ensures output[at] == BACKSLASH && output[at + 1] == letter
    ensures forall k :: 0 <= k < output.Length && !(at <= k < at + 2) ==> output[k] == old(output[k])
  {
    output[at] := BACKSLASH;
    output[at + 1] := letter;
  }

  method PutHex(output: array<byte>, at: nat, c: byte)
    requires at + 5 < output.Length
    modifies output
    ensures output[at] == BACKSLASH && output[at + 1] == LETTER_U && output[at + 2] == output[at + 3] == ZERO
    ensures output[at + 4] == HEX[c / 16] && output[at + 5] == HEX[c % 16]
    ensures forall k :: 0 <= k < output.Length && !(at <= k < at + 6) ==> output[k] == old(output[k])
  {
    output[at], output[at + 1] := BACKSLASH, LETTER_U;
    output[at + 2], output[at + 3] := ZERO, ZERO;
    output[at + 4], output[at + 5] := HEX[c / 16], HEX[c % 16];
  }

  // Writes the escape of one character if all of it fits in front of a terminator, and otherwise
  // nothing.
  method PutEscape(output: array<byte>, at: nat, c: byte) returns (fits: bool, next: nat)
    requires at + 1 < output.Length
    modifies output
    ensures fits <==> at + |EscapeByte(c)| < output.Length
    ensures if fits then next == at + |EscapeByte(c)| else next == at
    ensures forall k :: at <= k < next ==> output[k] == EscapeByte(c)[k - at]
    ensures forall k :: 0 <= k < output.Length && !(at <= k < next) ==> output[k] == old(output[k])
  {
    var size := output.Length;
    if c == QUOTE || c == BACKSLASH {
      if at + 2 >= size {
        return false, at;
      }
      PutPair(output, at, c);
      return true, at + 2;
    } else if c == NEWLINE {
      if at + 2 >= size {
        return false, at;
      }
      PutPair(output, at, LETTER_N);
      return true, at + 2;
    } else if c == RETURN {
      if at + 2 >= size {
        return false, at;
      }
      PutPair(output, at, LETTER_R);
      return true, at + 2;
    } else if c == TAB {
      if at + 2 >= size {
        return false, at;
      }
      PutPair(output, at, LETTER_T);
      return true, at + 2;
    } else if c < 0x20 {
      if at + 6 >= size {
        return false, at;
      }
      PutHex(output, at, c);
      return true, at + 6;
    } else {
      output[at] := c;
      return true, at + 1;
    }
  }

  // Writes the escape of the longest fitting prefix and a terminator, splitting no escape, and leaves
  // the rest of the buffer alone.  A buffer of size zero is not touched.
  method EscapeString(input: seq<byte>, output: array<byte>)
    requires 0 in input
    modifies output
    ensures output.Length > 0 ==>
              exists n: nat :: LongestFit(input[..TextLen(input)], n, output.Length) &&
                               Written(input[..TextLen(input)], n, old(output[..]), output[..])
  {
    var size := output.Length;
    if size == 0 {
      return;
    }
    var inIndex, outIndex := 0, 0;
    ghost var text, before := input[..TextLen(input)], output[..];
    ghost var written := Escape(text[..0]);
    assert written == [];
    hide Escape, EscapeByte, TextLen, LongestFit, Written;
    while input[inIndex] != 0 && outIndex + 1 < size
      invariant inIndex <= |text|
      invariant written == Escape(text[..inIndex]) && |written| == outIndex < size
      invariant forall k :: 0 <= k < outIndex ==> output[k] == written[k]
      invariant forall k :: outIndex <= k < size ==> output[k] == before[k]
      decreases |text| - inIndex
    {
      var c := input[inIndex];
      EscapeNext(text, inIndex);
      var fits, next := PutEscape(output, outIndex, c);
      if !fits {
        break;
      }
      inIndex, outIndex := inIndex + 1, next;
      written := written + EscapeByte(c);
    }
    output[outIndex] := 0;
    FitEnds(text, inIndex, size);
    WrittenPointwise(text, inIndex, before, output[..]);
  }

  lemma {:induction false} WrittenPointwise(text: seq<byte>, n: nat, before: seq<byte>, after: seq<byte>)
    requires n <= |text| && |Escape(text[..n])| < |before| == |after|
    requires forall k :: 0 <= k < |Escape(text[..n])| ==> after[k] == Escape(text[..n])[k]
    requires after[|Escape(text[..n])|] == 0
    requires forall k :: |Escape(text[..n])| < k < |after| ==> after[k] == before[k]
    ensures Written(text, n, before, after)
  {
  }
}
