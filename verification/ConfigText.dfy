/** Configuration files as text: trimming, splitting into lines, and reading numbers, switches and
    paths.  A character stands for one byte of the file. */
module ConfigText {
  import opened Options
  import opened Packets

  const NUL: char := '\0'
  const LINE_MAX := 512
  const PATH_MAX := 256

  predicate IsSpace(c: char) {
    c == ' ' || 9 <= c as int <= 13
  }

  predicate IsDigit(c: char) {
    '0' <= c <= '9'
  }

  // ---------- C strings and trimming ----------

  // The C string that starts a buffer: everything before the first zero byte.
  function CText(s: string): (r: string)
    ensures |r| <= |s| && r == s[..|r|] && NUL !in r
    ensures |r| < |s| ==> s[|r|] == NUL
  {
    if s == [] || s[0] == NUL then [] else [s[0]] + CText(s[1..])
  }

  function TrimLeft(s: string): (r: string)
    ensures |r| <= |s| && r == s[|s| - |r|..]
    ensures r != [] ==> !IsSpace(r[0])
    ensures forall i :: 0 <= i < |s| - |r| ==> IsSpace(s[i])
  {
    if s != [] && IsSpace(s[0]) then TrimLeft(s[1..]) else s
  }

  function TrimRight(s: string): (r: string)
    ensures |r| <= |s| && r == s[..|r|]
    ensures r != [] ==> !IsSpace(r[|r| - 1])
    ensures forall i :: |r| <= i < |s| ==> IsSpace(s[i])
  {
    if s != [] && IsSpace(s[|s| - 1]) then TrimRight(s[..|s| - 1]) else s
  }

  function Trim(s: string): string {
    TrimRight(TrimLeft(s))
  }

  predicate Trimmed(s: string) {
    s != [] && !IsSpace(s[0]) && !IsSpace(s[|s| - 1])
  }

  lemma {:induction false} TrimOfTrimmed(s: string)
    requires Trimmed(s)
    ensures Trim(s) == s && Trim(s + "\n") == s
  {
  }

  // The six characters that count as blank.
  predicate Blanks(s: string) {
    forall i :: 0 <= i < |s| ==> s[i] in [' ', '\t', '\n', '\r', 11 as char, 12 as char]
  }

  lemma {:induction false} BlankExactly(c: char)
    ensures IsSpace(c) <==> Blanks([c])
  {
    assert [c][0] == c;
  }

  lemma {:induction false} TrimLeftPadded(left: string, s: string)
    requires Blanks(left) && s != [] && !IsSpace(s[0])
    ensures TrimLeft(left + s) == s
  {
    if left == [] {
      assert left + s == s;
    } else {
      assert (left + s)[1..] == left[1..] + s;
      TrimLeftPadded(left[1..], s);
    }
  }

  lemma {:induction false} TrimRightPadded(s: string, right: string)
    requires Blanks(right) && s != [] && !IsSpace(s[|s| - 1])
    ensures TrimRight(s + right) == s
  {
    if right == [] {
      assert s + right == s;
    } else {
      var more := s + right;
      assert more[..|more| - 1] == s + right[..|right| - 1];
      TrimRightPadded(s, right[..|right| - 1]);
    }
  }

  // Trimming takes exactly the blanks around a text away.
  lemma {:induction false} TrimPadded(left: string, s: string, right: string)
    requires Blanks(left) && Blanks(right) && Trimmed(s)
    ensures Trim(left + s + right) == s
  {
    assert left + s + right == left + (s + right);
    TrimLeftPadded(left, s + right);
    TrimRightPadded(s, right);
  }

  function Find(s: string, c: char): (i: nat)
    ensures i <= |s| && (i < |s| ==> s[i] == c) && c !in s[..i]
    ensures forall k :: 0 <= k < i ==> s[k] != c
  {
    if s == [] || s[0] == c then 0 else 1 + Find(s[1..], c)
  }

  lemma {:induction false} FindUnique(s: string, c: char, i: nat)
    requires i <= |s| && c !in s[..i] && (i < |s| ==> s[i] == c)
    ensures Find(s, c) == i
  {
  }

  // ---------- lines ----------

  // What one fgets call takes: up to and including the first newline, but at most 511 characters.
  function TakenLen(text: string): (n: nat)
    requires text != []
    ensures 1 <= n <= |text| && n < LINE_MAX
  {
    var end := Find(text, '\n') + 1;
    var n := if end > |text| then |text| else end;
    if n >= LINE_MAX then LINE_MAX - 1 else n
  }

  function Chunks(text: string): seq<string> {
    if text == [] then [] else [text[..TakenLen(text)]] + Chunks(text[TakenLen(text)..])
  }

  function LineLen(text: string): (n: nat)
    requires text != []
    ensures 1 <= n <= |text|
  {
    var end := Find(text, '\n') + 1;
    if end > |text| then |text| else end
  }

  // The lines of a file, each with its newline.
  function Lines(text: string): seq<string> {
    if text == [] then [] else [text[..LineLen(text)]] + Lines(text[LineLen(text)..])
  }

  // A short line at the front of a text is taken whole.
  lemma {:induction false} ChunksFirst(first: string, rest: string)
    requires first != [] && |first| < LINE_MAX && Find(first, '\n') == |first| - 1
    ensures Chunks(first + rest) == [first] + Chunks(rest)
  {
    var text, at := first + rest, |first| - 1;
    assert text[..at] == first[..at] && text[at] == first[at];
    FindUnique(text, '\n', at);
    assert text[..|first|] == first && text[|first|..] == rest;
  }

  lemma {:induction false} ChunksAreShort(text: string)
    ensures forall i :: 0 <= i < |Chunks(text)| ==> |Chunks(text)[i]| < LINE_MAX
  {
    if text == [] {
    } else {
      ChunksAreShort(text[TakenLen(text)..]);
    }
  }

  // The loader sees the lines of the file exactly when every line, with its newline, has at most 511
  // characters; a longer line is taken for several.
  lemma {:induction false} ChunksAreLines(text: string)
    ensures Chunks(text) == Lines(text) <==> forall i :: 0 <= i < |Lines(text)| ==> |Lines(text)[i]| <= 511
  {
    if Chunks(text) == Lines(text) {
      ChunksAreShort(text);
    } else {
      LongLine(text);
    }
  }

  lemma {:induction false} LongLine(text: string)
    requires Chunks(text) != Lines(text)
    ensures exists i :: 0 <= i < |Lines(text)| && |Lines(text)[i]| >= LINE_MAX
  {
    hide Find;
    if LineLen(text) < LINE_MAX {
      var rest := text[LineLen(text)..];
      LongLine(rest);
      var i :| 0 <= i < |Lines(rest)| && |Lines(rest)[i]| >= LINE_MAX;
      assert Lines(text)[i + 1] == Lines(rest)[i];
    } else {
      assert |Lines(text)[0]| >= LINE_MAX;
    }
  }

  // ---------- numbers ----------

  function DigitValue(c: char): nat
    requires IsDigit(c)
  {
    c as int - '0' as int
  }

  predicate AllDigits(s: string) {
    forall i :: 0 <= i < |s| ==> IsDigit(s[i])
  }

  function DecimalValue(s: string): nat
    requires AllDigits(s)
  {
    if s == [] then 0 else DecimalValue(s[..|s| - 1]) * 10 + DigitValue(s[|s| - 1])
  }

  // The whole text as a signed decimal number; nothing if anything else is left over.
  function ParseLong(s: string): Option<int> {
    var t := TrimLeft(s);
    var negative := t != [] && t[0] == '-';
    var digits := if t != [] && (t[0] == '-' || t[0] == '+') then t[1..] else t;
    if digits == [] || !AllDigits(digits) then None
    else
      var n: int := DecimalValue(digits);
      Some(if negative then -n else n)
  }

  // Values beyond `long` are refused as out of range, as is everything beyond INT_MAX.
  function ParsePositive(s: string): Option<int32> {
    match ParseLong(s)
    case Some(n) => if 0 < n < 0x8000_0000 then Some(n) else None
    case None => None
  }

  function ParseNonNegative(s: string): Option<int32> {
    match ParseLong(s)
    case Some(n) => if 0 <= n < 0x8000_0000 then Some(n) else None
    case None => None
  }

  function Decimal(n: nat): string {
    if n < 10 then [('0' as int + n) as char] else Decimal(n / 10) + [('0' as int + n % 10) as char]
  }

  lemma {:induction false} DecimalRoundTrip(n: nat)
    ensures AllDigits(Decimal(n)) && Decimal(n) != [] && DecimalValue(Decimal(n)) == n
    ensures n < 0x8000_0000 ==> |Decimal(n)| <= 10
  {
    DecimalLength(n, 10);
    if n >= 10 {
      DecimalRoundTrip(n / 10);
      var s := Decimal(n);
      assert s[..|s| - 1] == Decimal(n / 10);
    } else {
      assert Decimal(n)[..0] == [];
    }
  }

  function Power10(k: nat): nat {
    if k == 0 then 1 else 10 * Power10(k - 1)
  }

  lemma {:induction false} DecimalLength(n: nat, k: nat)
    requires k > 0
    ensures n < Power10(k) ==> |Decimal(n)| <= k
    ensures Power10(10) > 0x8000_0000
  {
    assert Power10(10) == 10 * Power10(9) == 100 * Power10(8) == 1000 * Power10(7) == 10000 * Power10(6)
                       == 100000 * Power10(5);
    assert Power10(5) == 10 * Power10(4) == 100 * Power10(3) == 1000 * Power10(2) == 10000 * Power10(1) == 100000;
    assert Power10(1) == 10 * Power10(0);
    if n >= 10 && n < Power10(k) && k > 1 {
      DecimalLength(n / 10, k - 1);
    }
  }

  lemma {:induction false} DigitsArePlain(s: string)
    requires AllDigits(s) && s != []
    ensures Trimmed(s) && NUL !in s && '\n' !in s && s[0] != '-' && s[0] != '+'
  {
  }

  lemma {:induction false} ParsesDecimal(n: nat)
    ensures ParseLong(Decimal(n)) == Some(n)
    ensures Trimmed(Decimal(n)) && NUL !in Decimal(n) && '\n' !in Decimal(n)
  {
    hide Decimal, DecimalValue, AllDigits, IsSpace;
    DecimalRoundTrip(n);
    DigitsArePlain(Decimal(n));
  }

  lemma {:induction false} Signed(digits: string, sign: char)
    requires AllDigits(digits) && digits != [] && (sign == '-' || sign == '+')
    ensures ParseLong([sign] + digits) ==
            Some(if sign == '-' then -(DecimalValue(digits) as int) else DecimalValue(digits))
  {
    hide DecimalValue;
    var s := [sign] + digits;
    assert !IsSpace(s[0]) && TrimLeft(s) == s && s[1..] == digits;
  }

  // Thresholds and windows accept exactly the decimal numbers from 1 to INT_MAX, the cooldown also 0
  // (and a negative zero); a sign may be written.
  lemma {:induction false} NumbersAccepted(n: nat)
    ensures ParsePositive(Decimal(n)).Some? <==> 0 < n < 0x8000_0000
    ensures ParsePositive("+" + Decimal(n)) == ParsePositive(Decimal(n))
    ensures ParsePositive("-" + Decimal(n)) == None
    ensures ParseNonNegative(Decimal(n)).Some? <==> n < 0x8000_0000
    ensures ParseNonNegative("-" + Decimal(n)).Some? <==> n == 0
  {
    hide Decimal, DecimalValue, AllDigits, ParseLong;
    ParsesDecimal(n);
    DecimalRoundTrip(n);
    Signed(Decimal(n), '+');
    Signed(Decimal(n), '-');
  }

  // ---------- switches and paths ----------

  function Lower(c: char): char {
    if 'A' <= c <= 'Z' then (c as int + 32) as char else c
  }

  predicate EqualIgnoringCase(a: string, b: string) {
    |a| == |b| && forall i :: 0 <= i < |a| ==> Lower(a[i]) == Lower(b[i])
  }

  function ParseSwitch(s: string): Option<int32> {
    if EqualIgnoringCase(s, "true") || EqualIgnoringCase(s, "yes") || s == "1" then Some(1)
    else if EqualIgnoringCase(s, "false") || EqualIgnoringCase(s, "no") || s == "0" then Some(0)
    else None
  }

  function Lowered(s: string): (r: string)
    ensures |r| == |s| && forall i :: 0 <= i < |s| ==> r[i] == Lower(s[i])
  {
    seq(|s|, i requires 0 <= i < |s| => Lower(s[i]))
  }

  lemma {:induction false} EqualLowered(s: string, word: string)
    ensures EqualIgnoringCase(s, word) <==> Lowered(s) == Lowered(word)
  {
    if Lowered(s) == Lowered(word) {
      assert |s| == |word|;
      assert forall i :: 0 <= i < |s| ==> Lower(s[i]) == Lowered(s)[i] == Lowered(word)[i] == Lower(word[i]);
    }
  }

  lemma {:induction false} DigitLowered(s: string, digit: char)
    requires IsDigit(digit)
    ensures s == [digit] <==> Lowered(s) == [digit]
  {
    if Lowered(s) == [digit] {
      assert Lower(s[0]) == digit;
      assert s == [s[0]];
    }
  }

  // A switch is on for exactly the texts that are true, yes or 1 in any case, off for exactly false,
  // no and 0, and every other text is rejected.
  lemma {:induction false} SwitchWords(s: string)
    ensures ParseSwitch(s) == Some(1) <==> Lowered(s) == "true" || Lowered(s) == "yes" || Lowered(s) == "1"
    ensures ParseSwitch(s) == Some(0) <==> Lowered(s) == "false" || Lowered(s) == "no" || Lowered(s) == "0"
    ensures ParseSwitch(s).Some? ==> ParseSwitch(s).value == 0 || ParseSwitch(s).value == 1
  {
    hide EqualIgnoringCase;
    WordsLower();
    EqualLowered(s, "true");
    EqualLowered(s, "yes");
    EqualLowered(s, "false");
    EqualLowered(s, "no");
    DigitLowered(s, '1');
    DigitLowered(s, '0');
  }

  lemma {:induction false} WordsLower()
    ensures Lowered("true") == "true" && Lowered("yes") == "yes" && Lowered("false") == "false" && Lowered("no") == "no"
  {
  }

  lemma {:induction false} SwitchesIgnoreCase(a: string, b: string)
    requires EqualIgnoringCase(a, b)
    ensures ParseSwitch(a) == ParseSwitch(b)
  {
    hide ParseSwitch;
    assert Lowered(a) == Lowered(b);
    SwitchWords(a);
    SwitchWords(b);
  }

  function ParsePath(s: string): Option<string> {
    if s == [] || |s| >= PATH_MAX then None else Some(s)
  }
}
