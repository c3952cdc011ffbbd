/** What loading a configuration file does to the settings, and that writing settings out and loading
    them gives them back. */
module ConfigSpec {
  import opened Options
  import opened Packets
  import opened Settings
  import opened ConfigText

  datatype Field =
    | PortScanThreshold | PortScanWindow | SynFloodThreshold | SynFloodWindow | IcmpFloodThreshold | IcmpFloodWindow
    | AlertCooldown
    | EnableSuspiciousPort | EnableSynWatch | EnableIcmpEcho | EnablePortScan | EnableSynFlood | EnableIcmpFlood
    | PacketLogFile | AlertLogFile

  datatype Kind = Positive | NonNegative | Switch | Path

  datatype Value = Number(n: int32) | Text(s: string)

  function NameOf(f: Field): string {
    match f
    case PortScanThreshold => "port_scan_threshold"
    case PortScanWindow => "port_scan_window_seconds"
    case SynFloodThreshold => "syn_flood_threshold"
    case SynFloodWindow => "syn_flood_window_seconds"
    case IcmpFloodThreshold => "icmp_flood_threshold"
    case IcmpFloodWindow => "icmp_flood_window_seconds"
    case AlertCooldown => "alert_cooldown_seconds"
    case EnableSuspiciousPort => "enable_suspicious_port_rule"
    case EnableSynWatch => "enable_tcp_syn_watch_rule"
    case EnableIcmpEcho => "enable_icmp_echo_rule"
    case EnablePortScan => "enable_port_scan_detection"
    case EnableSynFlood => "enable_syn_flood_detection"
    case EnableIcmpFlood => "enable_icmp_flood_detection"
    case PacketLogFile => "packet_log_file"
    case AlertLogFile => "alert_log_file"
  }

  function FieldNamed(key: string): Option<Field> {
    if key == NameOf(PortScanThreshold) then Some(PortScanThreshold)
    else if key == NameOf(PortScanWindow) then Some(PortScanWindow)
    else if key == NameOf(SynFloodThreshold) then Some(SynFloodThreshold)
    else if key == NameOf(SynFloodWindow) then Some(SynFloodWindow)
    else if key == NameOf(IcmpFloodThreshold) then Some(IcmpFloodThreshold)
    else if key == NameOf(IcmpFloodWindow) then Some(IcmpFloodWindow)
    else if key == NameOf(AlertCooldown) then Some(AlertCooldown)
    else if key == NameOf(EnableSuspiciousPort) then Some(EnableSuspiciousPort)
    else if key == NameOf(EnableSynWatch) then Some(EnableSynWatch)
    else if key == NameOf(EnableIcmpEcho) then Some(EnableIcmpEcho)
    else if key == NameOf(EnablePortScan) then Some(EnablePortScan)
    else if key == NameOf(EnableSynFlood) then Some(EnableSynFlood)
    else if key == NameOf(EnableIcmpFlood) then Some(EnableIcmpFlood)
    else if key == NameOf(PacketLogFile) then Some(PacketLogFile)
    else if key == NameOf(AlertLogFile) then Some(AlertLogFile)
    else None
  }

  function KindOf(f: Field): Kind {
    match f
    case AlertCooldown => NonNegative
    case EnableSuspiciousPort => Switch
    case EnableSynWatch => Switch
    case EnableIcmpEcho => Switch
    case EnablePortScan => Switch
    case EnableSynFlood => Switch
    case EnableIcmpFlood => Switch
    case PacketLogFile => Path
    case AlertLogFile => Path
    case _ => Positive
  }

  function Get(c: Config, f: Field): Value {
    match f
    case PortScanThreshold => Number(c.portScanThreshold)
    case PortScanWindow => Number(c.portScanWindow)
    case SynFloodThreshold => Number(c.synFloodThreshold)
    case SynFloodWindow => Number(c.synFloodWindow)
    case IcmpFloodThreshold => Number(c.icmpFloodThreshold)
    case IcmpFloodWindow => Number(c.icmpFloodWindow)
    case AlertCooldown => Number(c.alertCooldown)
    case EnableSuspiciousPort => Number(c.enableSuspiciousPort)
    case EnableSynWatch => Number(c.enableSynWatch)
    case EnableIcmpEcho => Number(c.enableIcmpEcho)
    case EnablePortScan => Number(c.enablePortScan)
    case EnableSynFlood => Number(c.enableSynFlood)
    case EnableIcmpFlood => Number(c.enableIcmpFlood)
    case PacketLogFile => Text(c.packetLogFile)
    case AlertLogFile => Text(c.alertLogFile)
  }

  function Set(c: Config, f: Field, v: Value): Config
    requires KindOf(f) == Path <==> v.Text?
  {
    match f
    case PortScanThreshold => c.(portScanThreshold := v.n)
    case PortScanWindow => c.(portScanWindow := v.n)
    case SynFloodThreshold => c.(synFloodThreshold := v.n)
    case SynFloodWindow => c.(synFloodWindow := v.n)
    case IcmpFloodThreshold => c.(icmpFloodThreshold := v.n)
    case IcmpFloodWindow => c.(icmpFloodWindow := v.n)
    case AlertCooldown => c.(alertCooldown := v.n)
    case EnableSuspiciousPort => c.(enableSuspiciousPort := v.n)
    case EnableSynWatch => c.(enableSynWatch := v.n)
    case EnableIcmpEcho => c.(enableIcmpEcho := v.n)
    case EnablePortScan => c.(enablePortScan := v.n)
    case EnableSynFlood => c.(enableSynFlood := v.n)
    case EnableIcmpFlood => c.(enableIcmpFlood := v.n)
    case PacketLogFile => c.(packetLogFile := v.s)
    case AlertLogFile => c.(alertLogFile := v.s)
  }

  lemma {:induction false} GetSet(c: Config, f: Field, v: Value, g: Field)
    requires KindOf(f) == Path <==> v.Text?
    ensures Get(Set(c, f, v), g) == if f == g then v else Get(c, g)
  {
  }

  // What a setting may hold.
  predicate GoodValue(f: Field, v: Value) {
    match KindOf(f)
    case Positive => v.Number? && v.n > 0
    case NonNegative => v.Number? && v.n >= 0
    case Switch => v.Number? && (v.n == 0 || v.n == 1)
    case Path => v.Text? && 0 < |v.s| < PATH_MAX
  }

  function ParseFor(f: Field, s: string): (r: Option<Value>)
    ensures r.Some? ==> GoodValue(f, r.value)
  {
    var number :=
      match KindOf(f)
      case Positive => ParsePositive(s)
      case NonNegative => ParseNonNegative(s)
      case Switch => ParseSwitch(s)
      case Path => None;
    if KindOf(f) == Path then
      if ParsePath(s).Some? then Some(Text(ParsePath(s).value)) else None
    else if number.Some? then Some(Number(number.value))
    else None
  }

  // ---------- one line ----------

  // The assignment a line makes, if it makes one: blank lines, comments, lines without '=', unknown
  // keys and unacceptable values make none.
  function Assignment(chunk: string): (r: Option<(Field, Value)>)
    ensures r.Some? ==> GoodValue(r.value.0, r.value.1)
  {
    TextAssignment(CText(chunk))
  }

  function TextAssignment(text: string): (r: Option<(Field, Value)>)
    ensures r.Some? ==> GoodValue(r.value.0, r.value.1)
  {
    var line := Trim(text);
    if line == [] || line[0] == '#' then None
    else
      var at := Find(line, '=');
      if at == |line| then None else KeyedAssignment(Trim(line[..at]), Trim(line[at + 1..]))
  }

  function KeyedAssignment(key: string, value: string): (r: Option<(Field, Value)>)
    ensures r.Some? ==> GoodValue(r.value.0, r.value.1)
  {
    if key == [] then None
    else
      match FieldNamed(key)
      case None => None
      case Some(f) => if ParseFor(f, value).Some? then Some((f, ParseFor(f, value).value)) else None
  }

  function ApplyLine(c: Config, chunk: string): Config {
    hide Assignment, Set;
    match Assignment(chunk)
    case None => c
    case Some((f, v)) => Set(c, f, v)
  }

  function ApplyAll(c: Config, chunks: seq<string>): Config
    decreases chunks
  {
    if chunks == [] then c else ApplyAll(ApplyLine(c, chunks[0]), chunks[1..])
  }

  function Loaded(c: Config, file: string): Config {
    ApplyAll(c, Chunks(file))
  }

  // ---------- loading keeps the settings usable ----------

  ghost predicate GoodConfig(c: Config) {
    forall f: Field :: GoodValue(f, Get(c, f))
  }

  lemma {:induction false} AppliedGood(c: Config, chunks: seq<string>)
    requires GoodConfig(c)
    ensures GoodConfig(ApplyAll(c, chunks))
    decreases chunks
  {
    hide Assignment, Get, Set;
    if chunks == [] {
    } else {
      var next := ApplyLine(c, chunks[0]);
      forall f: Field
        ensures GoodValue(f, Get(next, f))
      {
        if Assignment(chunks[0]).Some? {
          var (g, v) := Assignment(chunks[0]).value;
          GetSet(c, g, v, f);
        }
      }
      AppliedGood(next, chunks[1..]);
    }
  }

  // What the detector and the logs rely on, setting by setting.
  predicate Usable(c: Config) {
    && c.portScanThreshold > 0 && c.portScanWindow > 0
    && c.synFloodThreshold > 0 && c.synFloodWindow > 0
    && c.icmpFloodThreshold > 0 && c.icmpFloodWindow > 0
    && c.alertCooldown >= 0
    && 0 <= c.enableSuspiciousPort <= 1 && 0 <= c.enableSynWatch <= 1 && 0 <= c.enableIcmpEcho <= 1
    && 0 <= c.enablePortScan <= 1 && 0 <= c.enableSynFlood <= 1 && 0 <= c.enableIcmpFlood <= 1
    && 0 < |c.packetLogFile| < 256 && 0 < |c.alertLogFile| < 256
  }

  lemma {:induction false} UsableIsGood(c: Config, f: Field)
    requires Usable(c)
    ensures GoodValue(f, Get(c, f))
  {
  }

  lemma {:induction false} GoodIsUsable(c: Config)
    requires GoodConfig(c)
    ensures Usable(c)
  {
    GoodNumbers(c);
    GoodSwitches(c);
    GoodPaths(c);
  }

  lemma {:induction false} GoodNumbers(c: Config)
    requires GoodConfig(c)
    ensures c.portScanThreshold > 0 && c.portScanWindow > 0 && c.synFloodThreshold > 0 && c.synFloodWindow > 0
    ensures c.icmpFloodThreshold > 0 && c.icmpFloodWindow > 0 && c.alertCooldown >= 0
  {
    assert GoodValue(PortScanThreshold, Get(c, PortScanThreshold)) && GoodValue(PortScanWindow, Get(c, PortScanWindow));
    assert GoodValue(SynFloodThreshold, Get(c, SynFloodThreshold)) && GoodValue(SynFloodWindow, Get(c, SynFloodWindow));
    assert GoodValue(IcmpFloodThreshold, Get(c, IcmpFloodThreshold));
    assert GoodValue(IcmpFloodWindow, Get(c, IcmpFloodWindow)) && GoodValue(AlertCooldown, Get(c, AlertCooldown));
  }

  lemma {:induction false} GoodSwitches(c: Config)
    requires GoodConfig(c)
    ensures 0 <= c.enableSuspiciousPort <= 1 && 0 <= c.enableSynWatch <= 1 && 0 <= c.enableIcmpEcho <= 1
    ensures 0 <= c.enablePortScan <= 1 && 0 <= c.enableSynFlood <= 1 && 0 <= c.enableIcmpFlood <= 1
  {
    assert GoodValue(EnableSuspiciousPort, Get(c, EnableSuspiciousPort));
    assert GoodValue(EnableSynWatch, Get(c, EnableSynWatch)) && GoodValue(EnableIcmpEcho, Get(c, EnableIcmpEcho));
    assert GoodValue(EnablePortScan, Get(c, EnablePortScan));
    assert GoodValue(EnableSynFlood, Get(c, EnableSynFlood)) && GoodValue(EnableIcmpFlood, Get(c, EnableIcmpFlood));
  }

  lemma {:induction false} GoodPaths(c: Config)
    requires GoodConfig(c)
    ensures 0 < |c.packetLogFile| < 256 && 0 < |c.alertLogFile| < 256
  {
    assert GoodValue(PacketLogFile, Get(c, PacketLogFile)) && GoodValue(AlertLogFile, Get(c, AlertLogFile));
  }

  // Whatever a file contains, thresholds and windows stay positive, the cooldown non-negative,
  // switches 0 or 1, and paths non-empty and below 256 characters.
  lemma {:induction false} LoadingKeepsGood(c: Config, file: string)
    requires Usable(c)
    ensures Usable(Loaded(c, file)) && PositiveWindows(Loaded(c, file))
  {
    hide Usable, Loaded, GoodValue, Get;
    forall f: Field
      ensures GoodValue(f, Get(c, f))
    {
      UsableIsGood(c, f);
    }
    LoadedGood(c, file);
    GoodIsUsable(Loaded(c, file));
    UsableWindows(Loaded(c, file));
  }

  lemma {:induction false} LoadedGood(c: Config, file: string)
    requires GoodConfig(c)
    ensures GoodConfig(Loaded(c, file))
  {
    AppliedGood(c, Chunks(file));
  }

  lemma {:induction false} UsableWindows(c: Config)
    requires Usable(c)
    ensures PositiveWindows(c)
  {
  }

  const DEFAULTS := Config(10, 10, 30, 10, 20, 10, 10, 1, 1, 1, 1, 1, 1, "logs/giftids.log", "logs/giftids_alerts.log")

  // So every configuration the program can start with is usable.
  lemma {:induction false} LoadedOverDefaults(file: string)
    ensures Usable(Loaded(DEFAULTS, file)) && PositiveWindows(Loaded(DEFAULTS, file))
  {
    LoadingKeepsGood(DEFAULTS, file);
  }

  // ---------- each setting ends as its last valid assignment ----------

  ghost function LastValue(lines: seq<string>, f: Field): Option<Value> {
    if lines == [] then None
    else
      var last := Assignment(lines[|lines| - 1]);
      if last.Some? && last.value.0 == f then Some(last.value.1) else LastValue(lines[..|lines| - 1], f)
  }

  lemma {:induction false} ApplyAppend(c: Config, chunks: seq<string>)
    requires chunks != []
    ensures ApplyAll(c, chunks) == ApplyLine(ApplyAll(c, chunks[..|chunks| - 1]), chunks[|chunks| - 1])
    decreases chunks
  {
    hide ApplyLine;
    if |chunks| == 1 {
    } else {
      ApplyAppend(ApplyLine(c, chunks[0]), chunks[1..]);
      assert chunks[1..][..|chunks| - 2] == chunks[..|chunks| - 1][1..];
    }
  }

  lemma {:induction false} AppliedLastValue(c: Config, chunks: seq<string>, f: Field)
    ensures Get(ApplyAll(c, chunks), f) == if LastValue(chunks, f).Some? then LastValue(chunks, f).value else Get(c, f)
  {
    hide Assignment, Get, Set;
    if chunks == [] {
    } else {
      var init, last := chunks[..|chunks| - 1], chunks[|chunks| - 1];
      ApplyAppend(c, chunks);
      AppliedLastValue(c, init, f);
      if Assignment(last).Some? {
        var (g, v) := Assignment(last).value;
        GetSet(ApplyAll(c, init), g, v, f);
      }
    }
  }

  // When every line has at most 511 characters with its newline, each setting ends as its last valid
  // assignment in the file, or stays as it was.
  lemma {:induction false} LastAssignmentWins(c: Config, file: string, f: Field)
    requires forall i :: 0 <= i < |Lines(file)| ==> |Lines(file)[i]| <= 511
    ensures Get(Loaded(c, file), f) ==
            if LastValue(Lines(file), f).Some? then LastValue(Lines(file), f).value else Get(c, f)
  {
    ChunksAreLines(file);
    AppliedLastValue(c, Lines(file), f);
  }

  // ---------- writing settings out ----------

  // A path that survives: usable, without line breaks or zero bytes, and not padded with blanks.
  predicate PlainText(s: string) {
    Trimmed(s) && NUL !in s && '\n' !in s && |s| < PATH_MAX
  }

  ghost predicate Writable(c: Config) {
    GoodConfig(c) && PlainText(c.packetLogFile) && PlainText(c.alertLogFile)
  }

  function ValueText(f: Field, v: Value): string
    requires GoodValue(f, v)
  {
    match KindOf(f)
    case Switch => if v.n == 1 then "true" else "false"
    case Path => v.s
    case _ => Decimal(v.n)
  }

  function LineFor(c: Config, f: Field): string
    requires GoodValue(f, Get(c, f))
  {
    NameOf(f) + "=" + ValueText(f, Get(c, f)) + "\n"
  }

  ghost function Render(c: Config, order: seq<Field>): string
    requires GoodConfig(c)
  {
    if order == [] then [] else LineFor(c, order[0]) + Render(c, order[1..])
  }

  predicate NameChar(c: char) {
    c == '_' || 'a' <= c <= 'z'
  }

  predicate IsName(s: string) {
    s != [] && |s| <= 30 && forall i :: 0 <= i < |s| ==> NameChar(s[i])
  }

  // Length, first and eighth character tell the names apart.
  function Shape(f: Field): (nat, char, char) {
    match f
    case PortScanThreshold => (19, 'p', 'a')
    case PortScanWindow => (24, 'p', 'a')
    case SynFloodThreshold => (19, 's', 'o')
    case SynFloodWindow => (24, 's', 'o')
    case IcmpFloodThreshold => (20, 'i', 'o')
    case IcmpFloodWindow => (25, 'i', 'o')
    case AlertCooldown => (22, 'a', 'o')
    case EnableSuspiciousPort => (27, 'e', 's')
    case EnableSynWatch => (25, 'e', 't')
    case EnableIcmpEcho => (21, 'e', 'i')
    case EnablePortScan => (26, 'e', 'p')
    case EnableSynFlood => (26, 'e', 's')
    case EnableIcmpFlood => (27, 'e', 'i')
    case PacketLogFile => (15, 'p', 'l')
    case AlertLogFile => (14, 'a', 'o')
  }

  lemma {:induction false} NameShape(f: Field)
    ensures |NameOf(f)| > 7 && (|NameOf(f)|, NameOf(f)[0], NameOf(f)[7]) == Shape(f)
  {
    match f
    case _ =>
  }

  lemma {:induction false} NamesDiffer(f: Field, g: Field)
    ensures NameOf(f) == NameOf(g) <==> f == g
  {
    hide NameOf;
    NameShape(f);
    NameShape(g);
  }

  lemma {:induction false} ScanNames(f: Field)
    requires f.PortScanThreshold? || f.PortScanWindow?
    ensures IsName(NameOf(f))
  {
    match f
    case _ =>
  }

  lemma {:induction false} SynFloodNames(f: Field)
    requires f.SynFloodThreshold? || f.SynFloodWindow?
    ensures IsName(NameOf(f))
  {
    match f
    case _ =>
  }

  lemma {:induction false} IcmpFloodNames(f: Field)
    requires f.IcmpFloodThreshold? || f.IcmpFloodWindow? || f.AlertCooldown?
    ensures IsName(NameOf(f))
  {
    match f
    case _ =>
  }

  lemma {:induction false} RuleNames(f: Field)
    requires f.EnableSuspiciousPort? || f.EnableSynWatch? || f.EnableIcmpEcho?
    ensures IsName(NameOf(f))
  {
    match f
    case _ =>
  }

  lemma {:induction false} DetectionNames(f: Field)
    requires f.EnablePortScan? || f.EnableSynFlood? || f.EnableIcmpFlood?
    ensures IsName(NameOf(f))
  {
    match f
    case _ =>
  }

  lemma {:induction false} PathNames(f: Field)
    requires f.PacketLogFile? || f.AlertLogFile?
    ensures IsName(NameOf(f))
  {
    match f
    case _ =>
  }

  lemma {:induction false} NameText(f: Field)
    ensures IsName(NameOf(f))
  {
    hide NameOf, IsName;
    match f
    case PortScanThreshold => ScanNames(f);
    case PortScanWindow => ScanNames(f);
    case SynFloodThreshold => SynFloodNames(f);
    case SynFloodWindow => SynFloodNames(f);
    case IcmpFloodThreshold => IcmpFloodNames(f);
    case IcmpFloodWindow => IcmpFloodNames(f);
    case AlertCooldown => IcmpFloodNames(f);
    case EnableSuspiciousPort => RuleNames(f);
    case EnableSynWatch => RuleNames(f);
    case EnableIcmpEcho => RuleNames(f);
    case EnablePortScan => DetectionNames(f);
    case EnableSynFlood => DetectionNames(f);
    case EnableIcmpFlood => DetectionNames(f);
    case PacketLogFile => PathNames(f);
    case AlertLogFile => PathNames(f);
  }

  // Every setting is found under its own name, and under no other key.
  lemma {:induction false} Names(f: Field, key: string)
    ensures FieldNamed(key) == Some(f) <==> key == NameOf(f)
  {
    hide NameOf;
    if key == NameOf(f) {
      forall g: Field
        ensures key == NameOf(g) <==> f == g
      {
        NamesDiffer(f, g);
      }
    }
  }

  lemma {:induction false} SwitchValue(f: Field, v: Value)
    requires KindOf(f) == Switch && GoodValue(f, v)
    ensures ParseFor(f, ValueText(f, v)) == Some(v)
    ensures ValueText(f, v) == "true" || ValueText(f, v) == "false"
  {
    hide ParseSwitch;
    WordsLower();
    SwitchWords("true");
    SwitchWords("false");
  }

  lemma {:induction false} NumberValue(f: Field, v: Value)
    requires (KindOf(f) == Positive || KindOf(f) == NonNegative) && GoodValue(f, v)
    ensures var s := ValueText(f, v);
            ParseFor(f, s) == Some(v) && Trimmed(s) && NUL !in s && '\n' !in s && |s| < PATH_MAX
  {
    hide Decimal, ParseLong;
    ParsesDecimal(v.n);
    DecimalRoundTrip(v.n);
  }

  lemma {:induction false} ValueRoundTrip(c: Config, f: Field)
    requires Writable(c)
    ensures GoodValue(f, Get(c, f))
    ensures var s := ValueText(f, Get(c, f));
            ParseFor(f, s) == Some(Get(c, f)) && Trimmed(s) && NUL !in s && '\n' !in s && |s| < PATH_MAX
  {
    var v := Get(c, f);
    assert GoodValue(f, v);
    hide GoodConfig, ParsePositive, ParseNonNegative, ParseSwitch, Decimal;
    match KindOf(f)
    case Switch => SwitchValue(f, v);
    case Path => assert PlainText(v.s);
    case _ => NumberValue(f, v);
  }

  // The line of a setting assigns that setting, whatever its value.
  lemma {:induction false} LineAssigns(c: Config, f: Field)
    requires Writable(c)
    ensures GoodValue(f, Get(c, f))
    ensures Assignment(LineFor(c, f)) == Some((f, Get(c, f)))
    ensures |LineFor(c, f)| < LINE_MAX && Find(LineFor(c, f), '\n') == |LineFor(c, f)| - 1
  {
    hide NameOf, FieldNamed, ValueText, ParseFor, Get, CText, Trim, Find;
    ValueRoundTrip(c, f);
    Names(f, NameOf(f));
    NameText(f);
    var name, value := NameOf(f), ValueText(f, Get(c, f));
    LineText(name, value);
    LineParts(name, value);
    assert LineFor(c, f) == name + "=" + value + "\n";
  }

  lemma {:induction false} LineText(name: string, value: string)
    requires IsName(name) && Trimmed(value) && NUL !in value && '\n' !in value
    ensures var line := name + "=" + value;
            && CText(line + "\n") == line + "\n" && Trim(line + "\n") == line && line[0] != '#'
            && Find(line + "\n", '\n') == |line|
  {
    hide CText, Trim, Find;
    var line := name + "=" + value;
    assert NameChar(name[0]);
    assert Trimmed(line);
    TrimOfTrimmed(line);
    assert NUL !in line + "\n";
    assert (line + "\n")[..|line|] == line && '\n' !in line;
    FindUnique(line + "\n", '\n', |line|);
  }

  lemma {:induction false} LineParts(name: string, value: string)
    requires IsName(name) && Trimmed(value)
    ensures var line := name + "=" + value;
            Find(line, '=') == |name| && Trim(line[..|name|]) == name && Trim(line[|name| + 1..]) == value
  {
    hide Trim, Find;
    var line := name + "=" + value;
    assert line[..|name|] == name && line[|name| + 1..] == value;
    assert NameChar(name[0]) && NameChar(name[|name| - 1]);
    TrimOfTrimmed(name);
    TrimOfTrimmed(value);
    FindUnique(line, '=', |name|);
  }

  ghost function RenderedLines(c: Config, order: seq<Field>): seq<string>
    requires GoodConfig(c)
  {
    if order == [] then [] else [LineFor(c, order[0])] + RenderedLines(c, order[1..])
  }

  lemma {:induction false} RenderedChunks(c: Config, order: seq<Field>)
    requires Writable(c)
    ensures Chunks(Render(c, order)) == RenderedLines(c, order)
  {
    assert Chunks([]) == [];
    hide LineFor, Assignment, Find, Get, Chunks;
    if order == [] {
    } else {
      var first, rest := LineFor(c, order[0]), Render(c, order[1..]);
      LineAssigns(c, order[0]);
      RenderedChunks(c, order[1..]);
      ChunksFirst(first, rest);
    }
  }

  lemma {:induction false} RenderedLast(c: Config, order: seq<Field>, f: Field)
    requires Writable(c) && f in order
    ensures LastValue(RenderedLines(c, order), f) == Some(Get(c, f))
  {
    hide Assignment, LineFor, Get, GoodValue, PlainText, RenderedLines, Find;
    var i := |order| - 1;
    RenderedAppend(c, order);
    LineAssigns(c, order[i]);
    if order[i] != f {
      assert f in order[..i];
      RenderedLast(c, order[..i], f);
    }
  }

  lemma {:induction false} RenderedAppend(c: Config, order: seq<Field>)
    requires GoodConfig(c) && order != []
    ensures RenderedLines(c, order) == RenderedLines(c, order[..|order| - 1]) + [LineFor(c, order[|order| - 1])]
  {
    hide LineFor;
    if |order| == 1 {
    } else {
      RenderedAppend(c, order[1..]);
      assert order[1..][..|order| - 2] == order[..|order| - 1][1..];
    }
  }

  // Writing settings out, one line each in any order and repeated or not, and loading the file over
  // any other settings gives the written settings back.
  lemma {:induction false} LoadsWhatWasWritten(c: Config, start: Config, order: seq<Field>)
    requires Writable(c) && forall f: Field :: f in order
    ensures Loaded(start, Render(c, order)) == c
  {
    RenderedChunks(c, order);
    var r := Loaded(start, Render(c, order));
    forall f: Field
      ensures Get(r, f) == Get(c, f)
    {
      AppliedLastValue(start, RenderedLines(c, order), f);
      RenderedLast(c, order, f);
    }
    hide ApplyAll, RenderedLines;
    SameSettings(r, c);
  }

  lemma {:induction false} SameSettings(a: Config, b: Config)
    requires forall f: Field :: Get(a, f) == Get(b, f)
    ensures a == b
  {
    assert Get(a, PortScanThreshold) == Get(b, PortScanThreshold);
    assert Get(a, PortScanWindow) == Get(b, PortScanWindow);
    assert Get(a, SynFloodThreshold) == Get(b, SynFloodThreshold);
    assert Get(a, SynFloodWindow) == Get(b, SynFloodWindow);
    assert Get(a, IcmpFloodThreshold) == Get(b, IcmpFloodThreshold);
    assert Get(a, IcmpFloodWindow) == Get(b, IcmpFloodWindow);
    assert Get(a, AlertCooldown) == Get(b, AlertCooldown);
    assert Get(a, EnableSuspiciousPort) == Get(b, EnableSuspiciousPort);
    assert Get(a, EnableSynWatch) == Get(b, EnableSynWatch);
    assert Get(a, EnableIcmpEcho) == Get(b, EnableIcmpEcho);
    assert Get(a, EnablePortScan) == Get(b, EnablePortScan);
    assert Get(a, EnableSynFlood) == Get(b, EnableSynFlood);
    assert Get(a, EnableIcmpFlood) == Get(b, EnableIcmpFlood);
    assert Get(a, PacketLogFile) == Get(b, PacketLogFile);
    assert Get(a, AlertLogFile) == Get(b, AlertLogFile);
  }

  // ---------- what one written line assigns ----------

  // A line with a name, '=' and a value assigns what the value means for that name, whatever blanks
  // stand around name and value.
  lemma {:induction false} PaddedLine(f: Field, value: string, before: string, after: string, between: string,
                                      end: string)
    requires Trimmed(value) && NUL !in value
    requires Blanks(before) && Blanks(after) && Blanks(between) && Blanks(end)
    ensures Assignment(before + NameOf(f) + after + "=" + between + value + end) ==
            if ParseFor(f, value).Some? then Some((f, ParseFor(f, value).value)) else None
  {
    hide NameOf, FieldNamed, ParseFor, Find, Trim, CText, IsSpace, IsName, Blanks, Trimmed;
    var name := NameOf(f);
    var line := name + after + "=" + between + value;
    Names(f, name);
    NameText(f);
    PaddedText(name, value, before, after, between, end);
    InnerTrimmed(name, value, after + "=" + between);
    assert line == name + (after + "=" + between) + value;
    TrimPadded(before, line, end);
    SplitAtEquals(name, value, after, between);
    assert before + name + after + "=" + between + value + end == before + line + end;
  }

  lemma {:induction false} PaddedText(name: string, value: string, before: string, after: string, between: string,
                                      end: string)
    requires IsName(name) && NUL !in value
    requires Blanks(before) && Blanks(after) && Blanks(between) && Blanks(end)
    ensures var text := before + name + after + "=" + between + value + end; CText(text) == text
  {
    NoNul(before);
    NoNul(after);
    NoNul(between);
    NoNul(end);
    assert NUL !in name;
    assert NUL !in before + name + after + "=" + between + value + end;
  }

  lemma {:induction false} NoNul(s: string)
    requires Blanks(s)
    ensures NUL !in s && '=' !in s && '#' !in s
  {
  }

  lemma {:induction false} InnerTrimmed(name: string, value: string, middle: string)
    requires IsName(name) && Trimmed(value)
    ensures Trimmed(name + middle + value) && (name + middle + value)[0] != '#' && name != []
  {
    assert NameChar(name[0]);
  }

  lemma {:induction false} SplitAtEquals(name: string, value: string, after: string, between: string)
    requires IsName(name) && Trimmed(value) && Blanks(after) && Blanks(between)
    ensures var line := name + after + "=" + between + value;
            && Find(line, '=') == |name + after|
            && Trim(line[..|name + after|]) == name && Trim(line[|name + after| + 1..]) == value
  {
    hide Find, Trim;
    var line := name + after + "=" + between + value;
    var at := |name + after|;
    assert line[..at] == name + after && line[at + 1..] == between + value;
    assert NameChar(name[0]) && NameChar(name[|name| - 1]);
    NoNul(after);
    assert '=' !in name && '=' !in line[..at];
    FindUnique(line, '=', at);
    var none: string := [];
    assert none + name + after == name + after && between + value + none == between + value;
    TrimPadded(none, name, after);
    TrimPadded(between, value, none);
  }

  // The settings after one line `key=value`.
  function AfterLine(c: Config, key: string, value: string): Config {
    ApplyLine(c, key + "=" + value + "\n")
  }

  lemma {:induction false} FieldLine(c: Config, f: Field, value: string)
    requires Trimmed(value) && NUL !in value
    ensures AfterLine(c, NameOf(f), value) == if ParseFor(f, value).Some? then Set(c, f, ParseFor(f, value).value)
            else c
  {
    hide NameOf, Assignment, ParseFor, Trimmed, Set;
    var none: string := [];
    PaddedLine(f, value, none, none, none, "\n");
    assert none + NameOf(f) + none + "=" + none + value + "\n" == NameOf(f) + "=" + value + "\n";
  }

  // A threshold or window takes exactly the numbers from 1 to 2^31 - 1, and only the setting that is
  // named changes.
  lemma {:induction false} ThresholdLines(c: Config, n: nat)
    ensures AfterLine(c, "port_scan_threshold", Decimal(n)) ==
            if 0 < n < 0x8000_0000 then c.(portScanThreshold := n) else c
    ensures AfterLine(c, "syn_flood_threshold", Decimal(n)) ==
            if 0 < n < 0x8000_0000 then c.(synFloodThreshold := n) else c
    ensures AfterLine(c, "icmp_flood_threshold", Decimal(n)) ==
            if 0 < n < 0x8000_0000 then c.(icmpFloodThreshold := n) else c
  {
    hide AfterLine, Decimal, ParsePositive;
    ParsesDecimal(n);
    PositiveDecimal(n);
    FieldLine(c, PortScanThreshold, Decimal(n));
    FieldLine(c, SynFloodThreshold, Decimal(n));
    FieldLine(c, IcmpFloodThreshold, Decimal(n));
  }

  lemma {:induction false} WindowLines(c: Config, n: nat)
    ensures AfterLine(c, "port_scan_window_seconds", Decimal(n)) ==
            if 0 < n < 0x8000_0000 then c.(portScanWindow := n) else c
    ensures AfterLine(c, "syn_flood_window_seconds", Decimal(n)) ==
            if 0 < n < 0x8000_0000 then c.(synFloodWindow := n) else c
    ensures AfterLine(c, "icmp_flood_window_seconds", Decimal(n)) ==
            if 0 < n < 0x8000_0000 then c.(icmpFloodWindow := n) else c
  {
    hide AfterLine, Decimal, ParsePositive;
    ParsesDecimal(n);
    PositiveDecimal(n);
    FieldLine(c, PortScanWindow, Decimal(n));
    FieldLine(c, SynFloodWindow, Decimal(n));
    FieldLine(c, IcmpFloodWindow, Decimal(n));
  }

  // The cooldown takes 0 as well.
  lemma {:induction false} CooldownLine(c: Config, n: nat)
    ensures AfterLine(c, "alert_cooldown_seconds", Decimal(n)) ==
            if n < 0x8000_0000 then c.(alertCooldown := n) else c
  {
    hide AfterLine, Decimal, ParseNonNegative;
    ParsesDecimal(n);
    PositiveDecimal(n);
    FieldLine(c, AlertCooldown, Decimal(n));
  }

  lemma {:induction false} PositiveDecimal(n: nat)
    ensures ParsePositive(Decimal(n)) == if 0 < n < 0x8000_0000 then Some(n) else None
    ensures ParseNonNegative(Decimal(n)) == if n < 0x8000_0000 then Some(n) else None
  {
    hide Decimal, ParseLong;
    ParsesDecimal(n);
  }

  // What a switch text means: 1, 0, or nothing.
  function Meaning(word: string): Option<int32> {
    var lower := Lowered(word);
    if lower == "true" || lower == "yes" || lower == "1" then Some(1)
    else if lower == "false" || lower == "no" || lower == "0" then Some(0)
    else None
  }

  lemma {:induction false} SwitchMeaning(word: string)
    ensures ParseSwitch(word) == Meaning(word)
  {
    hide ParseSwitch;
    SwitchWords(word);
    DifferentWords(Lowered(word));
  }

  lemma {:induction false} DifferentWords(lower: string)
    ensures lower == "false" || lower == "no" || lower == "0" ==> lower != "true" && lower != "yes" && lower != "1"
  {
  }

  lemma {:induction false} StatelessSwitchLines(c: Config, word: string)
    requires Trimmed(word) && NUL !in word
    ensures AfterLine(c, "enable_suspicious_port_rule", word) ==
            if Meaning(word).Some? then c.(enableSuspiciousPort := Meaning(word).value) else c
    ensures AfterLine(c, "enable_tcp_syn_watch_rule", word) ==
            if Meaning(word).Some? then c.(enableSynWatch := Meaning(word).value) else c
    ensures AfterLine(c, "enable_icmp_echo_rule", word) ==
            if Meaning(word).Some? then c.(enableIcmpEcho := Meaning(word).value) else c
  {
    hide AfterLine, Meaning, ParseSwitch, Trimmed;
    SwitchMeaning(word);
    FieldLine(c, EnableSuspiciousPort, word);
    FieldLine(c, EnableSynWatch, word);
    FieldLine(c, EnableIcmpEcho, word);
  }

  lemma {:induction false} StatefulSwitchLines(c: Config, word: string)
    requires Trimmed(word) && NUL !in word
    ensures AfterLine(c, "enable_port_scan_detection", word) ==
            if Meaning(word).Some? then c.(enablePortScan := Meaning(word).value) else c
    ensures AfterLine(c, "enable_syn_flood_detection", word) ==
            if Meaning(word).Some? then c.(enableSynFlood := Meaning(word).value) else c
    ensures AfterLine(c, "enable_icmp_flood_detection", word) ==
            if Meaning(word).Some? then c.(enableIcmpFlood := Meaning(word).value) else c
  {
    hide AfterLine, Meaning, ParseSwitch, Trimmed;
    SwitchMeaning(word);
    FieldLine(c, EnablePortScan, word);
    FieldLine(c, EnableSynFlood, word);
    FieldLine(c, EnableIcmpFlood, word);
  }

  // The lines of the shipped configuration file, one after the other: numbers, switches, paths.
  function NumberSettings(c0: Config): Config {
    var c1 := AfterLine(AfterLine(c0, "port_scan_threshold", "10"), "port_scan_window_seconds", "10");
    var c2 := AfterLine(AfterLine(c1, "syn_flood_threshold", "30"), "syn_flood_window_seconds", "10");
    var c3 := AfterLine(AfterLine(c2, "icmp_flood_threshold", "20"), "icmp_flood_window_seconds", "10");
    AfterLine(c3, "alert_cooldown_seconds", "10")
  }

  function SwitchSettings(c0: Config): Config {
    var c1 := AfterLine(AfterLine(c0, "enable_suspicious_port_rule", "true"), "enable_tcp_syn_watch_rule", "true");
    var c2 := AfterLine(AfterLine(c1, "enable_icmp_echo_rule", "true"), "enable_port_scan_detection", "true");
    AfterLine(AfterLine(c2, "enable_syn_flood_detection", "true"), "enable_icmp_flood_detection", "true")
  }

  function PathSettings(c0: Config): Config {
    AfterLine(AfterLine(c0, "packet_log_file", "logs/giftids.log"), "alert_log_file", "logs/giftids_alerts.log")
  }

  lemma {:induction false} NumbersSet(c0: Config)
    ensures NumberSettings(c0) ==
            c0.(portScanThreshold := 10, portScanWindow := 10, synFloodThreshold := 30, synFloodWindow := 10,
                icmpFloodThreshold := 20, icmpFloodWindow := 10, alertCooldown := 10)
  {
    hide AfterLine, Decimal;
    ShippedNumbers();
    var c1 := AfterLine(AfterLine(c0, "port_scan_threshold", "10"), "port_scan_window_seconds", "10");
    var c2 := AfterLine(AfterLine(c1, "syn_flood_threshold", "30"), "syn_flood_window_seconds", "10");
    var c3 := AfterLine(AfterLine(c2, "icmp_flood_threshold", "20"), "icmp_flood_window_seconds", "10");
    ThresholdLines(c0, 10);
    WindowLines(c0.(portScanThreshold := 10), 10);
    ThresholdLines(c1, 30);
    WindowLines(c1.(synFloodThreshold := 30), 10);
    ThresholdLines(c2, 20);
    WindowLines(c2.(icmpFloodThreshold := 20), 10);
    CooldownLine(c3, 10);
  }

  lemma {:induction false} SwitchesSet(c0: Config)
    ensures SwitchSettings(c0) ==
            c0.(enableSuspiciousPort := 1, enableSynWatch := 1, enableIcmpEcho := 1,
                enablePortScan := 1, enableSynFlood := 1, enableIcmpFlood := 1)
  {
    hide AfterLine, Meaning, Trimmed;
    ShippedTexts();
    var c1 := AfterLine(AfterLine(c0, "enable_suspicious_port_rule", "true"), "enable_tcp_syn_watch_rule", "true");
    var c2 := AfterLine(AfterLine(c1, "enable_icmp_echo_rule", "true"), "enable_port_scan_detection", "true");
    StatelessSwitchLines(c0, "true");
    StatelessSwitchLines(c0.(enableSuspiciousPort := 1), "true");
    StatelessSwitchLines(c1, "true");
    StatefulSwitchLines(c1.(enableIcmpEcho := 1), "true");
    StatefulSwitchLines(c2, "true");
    StatefulSwitchLines(c2.(enableSynFlood := 1), "true");
  }

  lemma {:induction false} PathsSet(c0: Config)
    ensures PathSettings(c0) == c0.(packetLogFile := "logs/giftids.log", alertLogFile := "logs/giftids_alerts.log")
  {
    hide AfterLine, Trimmed;
    ShippedTexts();
    PathLines(c0, "logs/giftids.log");
    PathLines(c0.(packetLogFile := "logs/giftids.log"), "logs/giftids_alerts.log");
  }

  // Whatever the settings were, the shipped file makes them the built-in defaults.
  lemma {:induction false} ShippedIsDefault(c: Config)
    ensures PathSettings(SwitchSettings(NumberSettings(c))) == DEFAULTS
  {
    hide PathSettings, SwitchSettings, NumberSettings;
    NumbersSet(c);
    SwitchesSet(NumberSettings(c));
    PathsSet(SwitchSettings(NumberSettings(c)));
  }

  lemma {:induction false} ShippedNumbers()
    ensures Decimal(10) == "10" && Decimal(20) == "20" && Decimal(30) == "30"
  {
    assert Decimal(1) == "1" && Decimal(2) == "2" && Decimal(3) == "3" && Decimal(0) == "0";
  }

  lemma {:induction false} ShippedTexts()
    ensures Trimmed("true") && NUL !in "true" && Meaning("true") == Some(1)
    ensures Trimmed("logs/giftids.log") && NUL !in "logs/giftids.log"
    ensures Trimmed("logs/giftids_alerts.log") && NUL !in "logs/giftids_alerts.log"
  {
    WordsLower();
  }

  // A path takes any text below 256 characters.
  lemma {:induction false} PathLines(c: Config, path: string)
    requires Trimmed(path) && NUL !in path
    ensures AfterLine(c, "packet_log_file", path) == if |path| < 256 then c.(packetLogFile := path) else c
    ensures AfterLine(c, "alert_log_file", path) == if |path| < 256 then c.(alertLogFile := path) else c
  {
    hide AfterLine;
    FieldLine(c, PacketLogFile, path);
    FieldLine(c, AlertLogFile, path);
  }

  // A file of one line of at most 511 characters with its newline is that line.
  lemma {:induction false} OneLineFile(c: Config, line: string)
    requires |line| <= 510 && '\n' !in line
    ensures Loaded(c, line + "\n") == ApplyLine(c, line + "\n")
  {
    hide ApplyLine, Find;
    var first, none := line + "\n", [];
    assert first + none == first && first[..|line|] == line;
    FindUnique(first, '\n', |line|);
    ChunksFirst(first, none);
    assert Chunks(none) == [];
    assert Chunks(first)[1..] == [];
    assert ApplyAll(ApplyLine(c, first), []) == ApplyLine(c, first);
  }

  // A line without '=' assigns nothing.
  lemma {:induction false} NoAssignment(c: Config, line: string)
    requires '=' !in line
    ensures ApplyLine(c, line) == c
  {
    hide Trim, CText, KeyedAssignment, Find;
    TrimmedPart(CText(line), '=');
    assert '=' !in CText(line);
  }

  lemma {:induction false} TrimmedPart(s: string, c: char)
    requires c !in s
    ensures c !in Trim(s)
  {
    var t := TrimLeft(s);
    assert c !in t && Trim(s) == t[..|Trim(s)|];
  }

  // The bound on line lengths is needed: behind 510 characters of comment, the rest of the same line
  // is taken for a line of its own, and any setting written there is assigned.
  lemma {:induction false} LongCommentAssigns(start: Config, c: Config, f: Field, filler: string)
    requires |filler| == 510 && '\n' !in filler && Writable(c)
    ensures GoodValue(f, Get(c, f))
    ensures LastValue(Lines("#" + filler + LineFor(c, f)), f) == None
    ensures Get(Loaded(start, "#" + filler + LineFor(c, f)), f) == Get(c, f)
  {
    hide LineFor, Get, Set, Assignment, Find, Chunks, Lines, ApplyAll, GoodValue, Writable, PlainText;
    LineAssigns(c, f);
    var comment, line := "#" + filler, LineFor(c, f);
    var file := comment + line;
    CommentAssignsNothing(file);
    LongFirstLine(comment, line);
    var none: seq<string> := [];
    assert [file][..0] == none && [comment, line][..1] == [comment];
    AppliedLastValue(start, [comment, line], f);
  }

  lemma {:induction false} CommentAssignsNothing(s: string)
    requires s != [] && s[0] == '#'
    ensures Assignment(s) == None
  {
    var t := CText(s);
    assert t[0] == '#' && TrimLeft(t) == t;
    assert !IsSpace(t[0]);
  }

  lemma {:induction false} LongFirstLine(comment: string, line: string)
    requires |comment| == LINE_MAX - 1 && '\n' !in comment
    requires line != [] && |line| < LINE_MAX && Find(line, '\n') == |line| - 1
    ensures Chunks(comment + line) == [comment, line] && Lines(comment + line) == [comment + line]
  {
    var file := comment + line;
    assert '\n' !in file[..|file| - 1] by {
      assert file[..|file| - 1] == comment + line[..|line| - 1];
    }
    FindUnique(file, '\n', |file| - 1);
    hide Find;
    assert TakenLen(file) == LINE_MAX - 1 && file[..LINE_MAX - 1] == comment && file[LINE_MAX - 1..] == line;
    assert TakenLen(line) == |line| && line[..|line|] == line && line[|line|..] == [];
    assert Chunks(line) == [line];
    assert LineLen(file) == |file| && file[..|file|] == file && file[|file|..] == [];
  }
}
