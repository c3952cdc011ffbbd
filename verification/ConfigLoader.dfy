/** Loading a configuration file line by line through one fixed line buffer. */
module ConfigLoader {
  import opened Options
  import opened Settings
  import opened ConfigText
  import opened ConfigSpec

  // Where the C string that starts at `at` ends.
  ghost predicate HasText(line: seq<char>, at: nat) {
    at < |line| && NUL in line[at..]
  }

  ghost function TextAt(line: seq<char>, at: nat): string
    requires at <= |line|
  {
    CText(line[at..])
  }

  // The first character of a text that is not blank, or its terminator.
  method SkipBlanks(line: array<char>, text: nat) returns (at: nat)
    requires HasText(line[..], text)
    ensures text <= at < line.Length && HasText(line[..], at)
    ensures TextAt(line[..], at) == TrimLeft(TextAt(line[..], text))
    ensures at + |TextAt(line[..], at)| == text + |TextAt(line[..], text)| < line.Length
    ensures line[at] == NUL <==> TextAt(line[..], at) == []
  {
    ghost var s := TextAt(line[..], text);
    TextEnds(line[..], text);
    hide TextAt, HasText, TrimLeft, IsSpace;
    at := text;
    while line[at] != NUL && IsSpace(line[at])
      invariant text <= at <= text + |s|
      invariant forall k :: 0 <= k < at - text ==> IsSpace(s[k])
      decreases line.Length - at
    {
      at := at + 1;
    }
    Skipped(line[..], text, at);
  }

  lemma {:induction false} Skipped(line: seq<char>, text: nat, at: nat)
    requires HasText(line, text) && text <= at <= text + |TextAt(line, text)| < |line|
    requires forall k :: 0 <= k < at - text ==> IsSpace(TextAt(line, text)[k])
    requires line[at] == NUL || !IsSpace(line[at])
    ensures HasText(line, at) && TextAt(line, at) == TrimLeft(TextAt(line, text))
    ensures at + |TextAt(line, at)| == text + |TextAt(line, text)|
    ensures line[at] == NUL <==> TextAt(line, at) == []
  {
    hide TextAt, HasText, TrimLeft, IsSpace;
    var s := TextAt(line, text);
    TextEnds(line, text);
    TrimLeftUnique(s, at - text);
    SameStretch(line, s, text, at);
    TextIs(line, at, text + |s|);
  }

  lemma {:induction false} SameStretch(line: seq<char>, s: string, text: nat, at: nat)
    requires text <= at <= text + |s| <= |line| && forall k :: text <= k < text + |s| ==> line[k] == s[k - text]
    ensures line[at..text + |s|] == s[at - text..]
  {
  }

  // The last character of a text that is not blank.
  method LastInk(line: array<char>, at: nat) returns (end: nat)
    requires HasText(line[..], at) && TextAt(line[..], at) != [] && !IsSpace(TextAt(line[..], at)[0])
    ensures at <= end < at + |TextAt(line[..], at)| < line.Length
    ensures TrimRight(TextAt(line[..], at)) == TextAt(line[..], at)[..end + 1 - at]
  {
    ghost var s := TextAt(line[..], at);
    TextEnds(line[..], at);
    hide TextAt, HasText, TrimRight;
    end := at;
    while line[end + 1] != NUL
      invariant at <= end < at + |s|
      decreases line.Length - end
    {
      end := end + 1;
    }
    while end > at && IsSpace(line[end])
      invariant at <= end < at + |s|
      invariant forall k :: end + 1 - at <= k < |s| ==> IsSpace(s[k])
    {
      end := end - 1;
    }
    TrimRightUnique(s, end + 1 - at);
  }

  // Skips blanks in front and cuts off blanks behind by writing a terminator; nothing outside the
  // text is touched.
  method TrimWhitespace(line: array<char>, text: nat) returns (at: nat)
    requires HasText(line[..], text)
    modifies line
    ensures text <= at < line.Length && HasText(line[..], at) &&
            TextAt(line[..], at) == Trim(old(TextAt(line[..], text)))
    ensures at <= text + |old(TextAt(line[..], text))|
    ensures forall k :: 0 <= k < line.Length && !(text <= k <= text + |old(TextAt(line[..], text))|) ==>
              line[k] == old(line[k])
  {
    hide TextAt, HasText, TrimLeft;
    at := SkipBlanks(line, text);
    ghost var buffer, rest := line[..], TextAt(line[..], at);
    if line[at] == NUL {
      return;
    }
    var end := LastInk(line, at);
    line[end + 1] := NUL;
    Terminated(buffer, line[..], at, end + 1);
  }

  lemma {:induction false} Terminated(before: seq<char>, after: seq<char>, at: nat, end: nat)
    requires HasText(before, at) && at < end <= at + |TextAt(before, at)| < |before| && after == before[end := NUL]
    ensures HasText(after, at) && TextAt(after, at) == TextAt(before, at)[..end - at]
  {
    TextEnds(before, at);
    var s := TextAt(before, at);
    hide TextAt, HasText;
    assert after[at..end] == s[..end - at];
    TextIs(after, at, end);
  }

  lemma {:induction false} TextEnds(line: seq<char>, at: nat)
    requires HasText(line, at)
    ensures at + |TextAt(line, at)| < |line| && line[at + |TextAt(line, at)|] == NUL
    ensures forall k :: at <= k < at + |TextAt(line, at)| ==> line[k] != NUL && line[k] == TextAt(line, at)[k - at]
  {
  }

  lemma {:induction false} TextIs(line: seq<char>, at: nat, end: nat)
    requires at <= end < |line| && line[end] == NUL && NUL !in line[at..end]
    ensures HasText(line, at) && TextAt(line, at) == line[at..end]
  {
  }

  lemma {:induction false} TrimLeftUnique(s: string, n: nat)
    requires n <= |s| && (forall k :: 0 <= k < n ==> IsSpace(s[k])) && (n < |s| ==> !IsSpace(s[n]))
    ensures TrimLeft(s) == s[n..]
  {
  }

  lemma {:induction false} TrimRightUnique(s: string, n: nat)
    requires n <= |s| && (forall k :: n <= k < |s| ==> IsSpace(s[k])) && (n > 0 ==> !IsSpace(s[n - 1]))
    ensures TrimRight(s) == s[..n]
  {
  }

  lemma {:induction false} TextSame(a: seq<char>, b: seq<char>, at: nat)
    requires HasText(a, at) && |a| == |b|
    requires forall k :: at <= k <= at + |TextAt(a, at)| && k < |a| ==> a[k] == b[k]
    ensures HasText(b, at) && TextAt(b, at) == TextAt(a, at)
  {
  }

  // One fgets call: a line, or as much of it as the buffer holds, followed by a terminator.
  method ReadLine(file: string, position: nat, line: array<char>) returns (next: nat)
    requires position < |file| && line.Length == LINE_MAX
    modifies line
    ensures next == position + TakenLen(file[position..])
    ensures HasText(line[..], 0) && TextAt(line[..], 0) == CText(file[position..next])
  {
    var n := 0;
    ghost var rest := file[position..];
    while position + n < |file| && n < LINE_MAX - 1 && (n == 0 || file[position + n - 1] != '\n')
      invariant position + n <= |file| && n <= LINE_MAX - 1
      invariant forall k :: 0 <= k < n ==> line[k] == rest[k]
      invariant forall k :: 0 <= k < n - 1 ==> rest[k] != '\n'
    {
      assert n > 0 ==> rest[n - 1] == file[position + n - 1];
      line[n] := file[position + n];
      n := n + 1;
    }
    line[n] := NUL;
    next := position + n;
    hide TextAt, HasText, CText;
    assert n > 0 ==> rest[n - 1] == file[next - 1];
    TakenUnique(rest, n);
    assert rest[..n] == file[position..next];
    Chunk(line[..], file[position..next]);
  }

  lemma {:induction false} TakenUnique(text: string, n: nat)
    requires 1 <= n <= |text| && n < LINE_MAX
    requires forall k :: 0 <= k < n - 1 ==> text[k] != '\n'
    requires n == |text| || n == LINE_MAX - 1 || text[n - 1] == '\n'
    ensures TakenLen(text) == n
  {
  }

  lemma {:induction false} Chunk(line: seq<char>, chunk: string)
    requires |chunk| < |line| && line[..|chunk|] == chunk && line[|chunk|] == NUL
    ensures HasText(line, 0) && TextAt(line, 0) == CText(chunk)
  {
  }

  // strchr: where a character is in a text.
  method FindChar(line: array<char>, text: nat, c: char) returns (found: bool, at: nat)
    requires HasText(line[..], text) && c != NUL
    ensures found <==> Find(TextAt(line[..], text), c) < |TextAt(line[..], text)|
    ensures found ==> at == text + Find(TextAt(line[..], text), c) < line.Length
  {
    ghost var s := TextAt(line[..], text);
    TextEnds(line[..], text);
    hide TextAt, HasText, Find;
    at := text;
    while line[at] != NUL
      invariant text <= at <= text + |s|
      invariant forall k :: 0 <= k < at - text ==> s[k] != c
      decreases line.Length - at
    {
      if line[at] == c {
        FindUnique(s, c, at - text);
        return true, at;
      }
      at := at + 1;
    }
    FindUnique(s, c, |s|);
    return false, at;
  }

  // A copy of a text, for comparing and for keeping.
  method CopyText(line: array<char>, text: nat) returns (s: string)
    requires HasText(line[..], text)
    ensures s == TextAt(line[..], text)
  {
    TextEnds(line[..], text);
    ghost var t := TextAt(line[..], text);
    hide TextAt, HasText;
    s := [];
    var at := text;
    while line[at] != NUL
      invariant text <= at <= text + |t| && s == t[..at - text]
      decreases line.Length - at
    {
      s := s + [line[at]];
      at := at + 1;
    }
    assert t[..|t|] == t;
  }

  // Takes one line apart in place: the separator becomes a terminator, then value and key are
  // trimmed.
  method ParseLine(line: array<char>) returns (r: Option<(Field, Value)>)
    requires HasText(line[..], 0)
    modifies line
    ensures r == TextAssignment(old(TextAt(line[..], 0)))
  {
    hide TextAt, HasText, Trim, Find, KeyedAssignment;
    var key := TrimWhitespace(line, 0);
    ghost var whole, buffer := TextAt(line[..], key), line[..];
    TextEnds(buffer, key);
    if line[key] == NUL || line[key] == '#' {
      return None;
    }
    var found, separator := FindChar(line, key, '=');
    if !found {
      return None;
    }
    line[separator] := NUL;
    Separated(buffer, line[..], key, separator);
    ghost var cut := line[..];
    var value := TrimWhitespace(line, separator + 1);
    TextSame(cut, line[..], key);
    ghost var valueText, trimmed := TextAt(line[..], value), line[..];
    TextEnds(trimmed, value);
    key := TrimWhitespace(line, key);
    TextSame(trimmed, line[..], value);
    r := Interpret(line, key, value);
  }

  // The setting a key names, and what a value text assigns to it.
  method Interpret(line: array<char>, key: nat, value: nat) returns (r: Option<(Field, Value)>)
    requires HasText(line[..], key) && HasText(line[..], value)
    ensures r == KeyedAssignment(TextAt(line[..], key), TextAt(line[..], value))
  {
    hide TextAt, HasText, FieldNamed, ParseFor;
    TextEnds(line[..], key);
    if line[key] == NUL {
      return None;
    }
    var name := CopyText(line, key);
    var field := FieldNamed(name);
    if field.None? {
      return None;
    }
    var text := CopyText(line, value);
    var parsed := ParseFor(field.value, text);
    if parsed.None? {
      return None;
    }
    return Some((field.value, parsed.value));
  }

  lemma {:induction false} Separated(before: seq<char>, after: seq<char>, key: nat, separator: nat)
    requires HasText(before, key) && key <= separator < key + |TextAt(before, key)| < |before|
    requires after == before[separator := NUL]
    ensures HasText(after, key) && TextAt(after, key) == TextAt(before, key)[..separator - key]
    ensures HasText(after, separator + 1) && TextAt(after, separator + 1) == TextAt(before, key)[separator + 1 - key..]
  {
    hide TextAt, HasText;
    var s := TextAt(before, key);
    TextEnds(before, key);
    assert after[key..separator] == s[..separator - key];
    TextIs(after, key, separator);
    assert after[separator + 1..key + |s|] == s[separator + 1 - key..];
    TextIs(after, separator + 1, key + |s|);
  }

  class ConfigFile {
    var values: Config

    constructor (values: Config)
      ensures this.values == values
    {
      this.values := values;
    }

    // Reads the file chunk by chunk through one buffer and applies what each chunk assigns.
    method Load(file: string)
      modifies this
      ensures values == Loaded(old(values), file)
    {
      hide Chunks, TakenLen, TextAssignment, Set, TextAt, HasText;
      var line := new char[LINE_MAX];
      var position := 0;
      assert file[0..] == file;
      while position < |file|
        invariant position <= |file|
        invariant Loaded(values, file[position..]) == Loaded(old(values), file)
      {
        LoadNext(values, file[position..]);
        var next := ReadLine(file, position, line);
        assert file[position..][..next - position] == file[position..next];
        assert file[position..][next - position..] == file[next..];
        var assignment := ParseLine(line);
        if assignment.Some? {
          values := Set(values, assignment.value.0, assignment.value.1);
        }
        position := next;
      }
      LoadDone(values);
      assert file[position..] == [];
    }
  }

  lemma {:induction false} LoadNext(c: Config, text: string)
    requires text != []
    ensures Loaded(c, text) == Loaded(ApplyLine(c, text[..TakenLen(text)]), text[TakenLen(text)..])
  {
  }

  lemma {:induction false} LoadDone(c: Config)
    ensures Loaded(c, []) == c
  {
  }
}
