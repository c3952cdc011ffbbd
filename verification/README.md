# Gift IDS, verified model

Gift IDS watches network traffic: it parses Ethernet/IPv4 frames, counts them, and raises alerts for
floods, port scans and a few single-packet signs.  Its stateful rules work on small fixed tables that
are compacted lazily, share their slots between hosts and drop what does not fit.  This project models
that program and proves how far those tables can be trusted to behave like the unbounded log they stand
for, and what still holds when they cannot.

`dafny verify dfyconfig.toml` checks everything.

## How the project is laid out

| files | what they hold |
|---|---|
| `Packets`, `DetectorSpec` | packet record, settings, keys, rules, and `Detect`: one packet through the rules, on values |
| `Slots`, `TableRuns` | one tracking table: a search, what it remembers, and whole runs against the unbounded log |
| `TableOverflow`, `DetectorOverflow` | exactly when the tables and the history stop being exact, with runs that show it |
| `Cooldown` | the alert history, and whole runs against an unbounded map of last alerts |
| `DetectorRuns`, `DetectorCounts`, `DetectorProperties`, `Noninterference` | whole runs of the detector, and what its rules count, said of the packets |
| `SlotTable`, `AlertHistory`, `Detector` | the detector as it is written: arrays searched, compacted and overwritten in place, each method equal to the value-level operation |
| `Parser`, `FrameBuilder` | the frame parser, and frames written from their fields |
| `Pcap` | the PCAP reader, and files written from their records |
| `JsonEscape` | the bounded JSON escaper and an independent unescaper |
| `ConfigText`, `ConfigSpec`, `ConfigLoader` | the configuration loader, in place on its line buffer, and rendered files |
| `Stats`, `Pipeline` | counters, the parse-count-detect step, and capture files through the whole program |

The three tracking tables run the same search loop in the source, once per table.  Here it is one class,
`SlotTable`, used with three kinds of key; a flood table remembers bare events, the port-scan table
remembers ports.  Slot headers are one array and entries one matrix with a row per slot.

Two ideas carry the proofs about runs.  `Stored(slots, key, t)` is what a table knows about a key when
looked at from time `t`; a lookup of another key never changes it as long as that lookup's time does not
expire what still counts at `t`, whatever it compacts, reclaims or claims.  And every table sees a log as
long as the run, with a `Skip` where a packet does not reach it, so what is proved of one table holds of
the rule at the same position of the run.

## Where code and documentation differ

The model follows the code.

* The cooldown is described as per source, target, rule type and destination port (`README.md`,
  Detection Rules).  The port takes part only for SYN floods, suspicious ports and SYN watch
  (`SharedCooldown`).  A rule in cooldown still absorbs the packet, so lower rules do not see it.
* The cooldown can fail in two ways.  A history full of live entries lets alerts out without remembering
  them: in `EchoAlertsTwice` 257 sources ping at one time and the last of them alerts twice.  And with
  times out of order an entry that is expired now, but not for a later packet, is taken over by another
  key: in `DisorderedAlertsTwice` three pings, all recorded, alert twice under one key at one time.
  These are the only ways.  For times in any order, the alerts of a key are more than the cooldown apart,
  and every match is answered as by an unbounded map, if and only if no alert of it is forgotten,
  unrecorded or taken over, before its key matches again within the cooldown (`CooldownHoldsExactly`,
  `FollowsMapExactly`).  A key that is always recorded and undisturbed is never forgotten; in runs with
  times in order every alert is recorded if and only if never more than 256 keys are cooling down
  (`RecordedIffFewCooling`).
* A flood slot that is full drops the newest event, so its count can fall below the real one, and a packet
  at which the log reaches the threshold can go unflagged (`SaturatedUnflagged`).  Counting is exact at
  every packet if and only if the key is never saturated (`UnsaturatedExactly`).  The flood itself is not
  missed: with a slot for every packet of the key and no later time before one of them, the rule fires in
  the window of every packet at which the log reaches a threshold of at most 128 (`SynFloodNoticed`).
* A packet with a later time makes the table forget other hosts' events that still count, so disorder
  misses floods altogether (`DisorderedFloodMissed`).  What matters is `Undisturbed`: no packet of another
  host comes with a time that expires what a later packet of this host still counts.  Hosts may be in any
  order otherwise.  `SharingExactly` shows the condition is needed as well as sufficient when other hosts'
  packets come only while nothing of theirs is live; without that a search can end at an earlier slot
  before it reaches the one it would have compacted (`EarlierSlotShields`).
* Configuration lines are read through a 512-byte buffer: a longer line is taken for several, and the end
  of a long comment can assign a setting (`LongCommentAssigns`).  A rejected value is said to keep the
  default; it keeps the value so far.
* The UDP length field is compared with 8 only, not with the bytes that follow it.

## Model

| member | source | states |
|---|---|---|
| Slots.KeepMember | src/detector.c:271-286 | compaction keeps exactly the entries inside the window |
| Slots.KeepLater | src/detector.c:217-286 | compacting now and again later is compacting once, later, so lazy compaction is invisible |
| Slots.KnownPortRefreshed | src/detector.c:318-327 | a port a slot holds keeps its place and takes the new time, all else stays |
| Slots.NewPortAppended | src/detector.c:329-336 | a new port goes to the end while there is room and is dropped when the slot is full |
| Slots.EventAppended | src/detector.c:412-420 | an event goes to the end while there is room and is dropped when the slot is full |
| Slots.LookupFailsWhenCrowded | src/detector.c:338-366 | a lookup finds no slot if and only if every slot holds another key that is live now |
| Slots.LookupFinds | src/detector.c:338-374 | the slot found holds exactly the live entries of the key; if none is found nothing was live |
| Slots.ObserveWellFormed | src/detector.c:288-420 | a lookup with remembering keeps keys distinct and slots between 1 and 128 entries, no port twice |
| Slots.OthersUntouched | src/detector.c:338-374 | looking up one key leaves what is known about every other key unchanged |
| Slots.OwnKey | src/detector.c:376-420 | the looked-up key ends with its live entries plus the packet, or with nothing if no slot was found |
| Slots.FirstSeenIsMinimum | src/detector.c:431-458 | the reported first time is the exact minimum of the stored times |
| Slots.LastSeenIsMaximum | src/detector.c:431-458 | the reported last time is the exact maximum of the stored times |
| SlotTables.SlotTable.CompactEntries | src/detector.c:271-286 | the in-place loop leaves the live entries in order at the front of the row, other rows alone |
| SlotTables.SlotTable.CompactSlot | src/detector.c:241-269 | compacting a slot in place, giving it up when nothing is left, is value-level compaction of that slot only |
| SlotTables.SlotTable.Search | src/detector.c:343-362 | the loop finds the first live slot of the key and leaves later slots stale, or compacts all and reports the first free one |
| SlotTables.SlotTable.Find | src/detector.c:338-374 | the whole search, with claiming, changes the table exactly as the value-level lookup does |
| SlotTables.SlotTable.RememberEvent | src/detector.c:412-420 | an event is appended, or dropped when the slot is full |
| SlotTables.SlotTable.RememberUniquePort | src/detector.c:318-336 | a known port is refreshed in place, a new one appended or dropped when full |
| SlotTables.SlotTable.TimeBounds | src/detector.c:431-491 | the loops compute the first and last stored time |
| TableRuns.AfterWellFormed | src/detector.c:288-420 | every reachable table has distinct keys and 1 to 128 entries per slot in use |
| TableRuns.EntriesJustified | src/detector.c:288-420 | every stored entry was really offered under the key of its slot, in any order of times |
| TableRuns.MissNeedsCrowd | src/detector.c:338-366 | a packet finds no slot only if at least 256 other keys had a packet inside the window |
| TableRuns.FewKeysNeverMiss | src/detector.c:338-366 | while no more than 256 keys are live at its packets, a key always finds a slot |
| TableOverflow.RoomExactly | src/detector.c:338-420 | in order and with no key saturated, every packet finds a slot if and only if never more than 256 keys are live |
| TableRuns.SharingInvisible | src/detector.c:338-420 | a key that always finds a slot and is never disturbed sees what it would see in a table of its own, however disordered the others are |
| TableRuns.HitIsOwn | src/detector.c:338-420 | so each packet of an undisturbed key that always finds a slot is answered as by a table holding only that key |
| TableRuns.OrderedIsSteady | src/detector.c:217-224 | a key is steady, in order itself and undisturbed, if no packet before one of its own carries a later time |
| TableOverflow.SharingExactly | src/detector.c:217-286 | if other keys come only when nothing of them is live, every packet is answered as by a table of its own if and only if the key is undisturbed |
| TableOverflow.EarlierSlotShields | src/detector.c:343-358 | that proviso is needed: a search that ends at an earlier slot leaves an expired one alone |
| TableOverflow.DisorderFallsShort | src/detector.c:217-286 | in any table with two slots, one packet of another key with a later time makes any number of counted events disappear |
| TableRuns.FloodCountsLog | src/detector.c:338-420 | sliding-window refinement: for a steady key that is not saturated and has room, the entry count equals the count over the whole unbounded log |
| TableRuns.UnsaturatedExactly | src/detector.c:412-420 | for a steady key with room, the count is that of the log at every packet if and only if the log never exceeds the slot |
| TableOverflow.SaturatedFallsShort | src/detector.c:412-420 | in order and alone, a saturated slot counts 1 where the log has any number |
| TableOverflow.FullSlotDrops | src/detector.c:329-336 | with `depth` live entries of the key and a port that is not among them, a packet is answered with exactly those entries |
| TableOverflow.RoomySlotAppends | src/detector.c:329-336 | with fewer, it is answered with those entries and its own behind |
| TableOverflow.KnownPortAnswered | src/detector.c:318-327 | with its port among them, it is answered with the same ports in place, its own with the new time |
| TableOverflow.ClosedWindow | src/detector.c:217-224 | with a window of zero or less every packet is answered with itself alone |
| TableRuns.ScanListsLog | src/detector.c:288-336 | port-set refinement: for a steady pair with room and no more than 128 live ports, the stored ports are exactly those whose last contact is in the window, each once, with that time |
| TableRuns.FewPortsExactly | src/detector.c:318-336 | for a steady pair with room, the stored ports are the live ports at every contact if and only if the live ports never exceed the slot |
| TableOverflow.ScanFallsShort | src/detector.c:318-336 | in order and alone, a pair that contacts more ports than its slot holds is answered with 1 port where the log has any number |
| TableRuns.FloodSound | src/detector.c:271-286 | with no assumption on order or room, the count never exceeds what the log really holds inside the window |
| TableRuns.HitJustified | src/detector.c:271-286 | every entry counted is a real packet of the key inside the window |
| TableRuns.ScanSound | src/detector.c:241-336 | the distinct ports counted were all really contacted inside the window |
| TableRuns.FloodNeverMissed | src/detector.c:338-420 | despite saturation, crowding and disorder within the span, enough packets within one window reach the threshold at one of them |
| TableRuns.ScanNeverMissed | src/detector.c:288-336 | the same for distinct ports, whatever is refreshed, expired or dropped in between |
| TableRuns.FloodNoticed | src/detector.c:338-420 | for a key with a slot at every packet and no later time before one: if the log reaches a threshold of at most 128 at a packet, the table reaches it at a packet of the same window |
| TableRuns.ScanNoticed | src/detector.c:288-336 | the same for distinct ports |
| TableRuns.FloodNoticedExactly | src/detector.c:338-420 | under the same conditions, a flood table reaches the threshold for a key at some packet if and only if the log does, saturated or not |
| TableRuns.ScanNoticedExactly | src/detector.c:288-336 | the same for distinct ports |
| Cooldown.DecideWellKept | src/detector.c:523-573 | history entries in use stay a prefix with distinct keys |
| Cooldown.OthersUndisturbed | src/detector.c:523-573 | overwriting an expired entry of another key changes nothing that can still be seen |
| Cooldown.OwnVerdict | src/detector.c:549-572 | an alert goes out if and only if no recent alert of its key holds it back, and is then remembered if recorded |
| Cooldown.UnrecordedWhenCrowded | src/detector.c:560-572 | an alert goes unrecorded if and only if every entry is another key still cooling down |
| Cooldown.OtherRemembered | src/detector.c:532-572 | an ask for another key leaves what is remembered of a key, unless it takes over its entry, the first available one |
| Cooldown.OwnRemembered | src/detector.c:549-572 | an alert goes out if and only if nothing remembered of its key is within the cooldown, for any times |
| CooldownRuns.AfterWellKept | src/detector.c:506-573 | every reachable history is a prefix of entries with distinct keys |
| CooldownRuns.CooldownIsMap | src/detector.c:523-573 | an undisturbed key whose alerts were all recorded is answered as by an unbounded map of last alerts |
| CooldownRuns.RecordedIffFewCooling | src/detector.c:523-573 | with times in order, every alert is recorded if and only if never more than 256 keys of that map are cooling down |
| CooldownRuns.CooldownRefinesMap | src/detector.c:523-573 | so with times in order and never more than 256 keys cooling down, the history agrees with the map on every call |
| CooldownRuns.AlertsApart | src/detector.c:549-558 | two alerts of an undisturbed key whose alerts were all recorded are more than the cooldown apart |
| CooldownRuns.NextAskDecided | src/detector.c:549-572 | for times in any order, an alert holds back a match of its key before the next alert if and only if it was recorded, its entry was not taken over, and the match comes within the cooldown |
| CooldownRuns.CooldownHoldsExactly | src/detector.c:523-573 | for times in any order, all alerts of a key are more than the cooldown apart if and only if none is forgotten before its key matches again within the cooldown |
| CooldownRuns.FollowsMapExactly | src/detector.c:523-573 | every match of a key is answered as by the map under exactly the same condition |
| CooldownRuns.RecordedNotForgotten | src/detector.c:523-573 | an undisturbed key whose alerts were all recorded never has one forgotten |
| CooldownRuns.OrderedIsUndisturbed | src/detector.c:217-224 | a key is undisturbed if no match before one of its own carries a later time |
| CooldownRuns.DisorderAlertsTwice | src/detector.c:532-572 | times out of order: another key takes over the entry, and a key alerts twice at one time although all is recorded |
| CooldownRuns.AlertsTwice | src/detector.c:560-572 | one key more than the history has entries, all at one time: the last key alerts twice at that time |
| CooldownRuns.AlertRate | src/detector.c:523-573 | if no alert of a key is forgotten, its matches within L seconds raise at most 1 + L / (C + 1) alerts |
| CooldownRuns.SuppressionSound | src/detector.c:549-554 | an alert is held back only by a real alert of its key no more than the cooldown earlier |
| AlertHistories.AlertHistory.ShouldEmit | src/detector.c:523-573 | the in-place search and overwrite is the value-level decision |
| Detectors.Detector.constructor | src/detector.c:96-109 | initialisation leaves every table empty |
| Detectors.Detector.CheckSynFlood | src/detector.c:575-630 | one lookup, one event, and when the threshold is reached one cooldown decision and its report |
| Detectors.Detector.CheckPortScan | src/detector.c:632-685 | the same with distinct ports |
| Detectors.Detector.CheckIcmpFlood | src/detector.c:687-739 | the same for echo requests |
| Detectors.Detector.CheckSuspiciousPort | src/detector.c:741-792 | fires exactly on TCP or UDP to a listed port |
| Detectors.Detector.CheckIcmpEcho | src/detector.c:794-821 | fires exactly on echo requests |
| Detectors.Detector.CheckSynWatch | src/detector.c:823-851 | fires exactly on SYNs without ACK |
| Detectors.Detector.CheckStateful | src/detector.c:873-886 | the table rules in order leave tables, history and result as `Detect` says |
| Detectors.Detector.DetectPacket | src/detector.c:853-904 | the whole step leaves state and result as `Detect` says, for valid and invalid packets |
| DetectorRuns.RunProjects | src/detector.c:873-886 | tables and history after any run are four independent runs over what reached each of them |
| DetectorRuns.Answers | src/detector.c:873-886 | every answer in a run is the answer of the table run at that position |
| DetectorCounts.SynsCounted | src/detector.c:338-366 | the log of the SYN table holds exactly the SYNs with this source, destination and destination port |
| DetectorCounts.EchoesCounted | src/detector.c:687-705 | the log of the ICMP table holds exactly the echo requests with this source and destination |
| DetectorCounts.PortsCounted | src/detector.c:632-651 | the log of the port-scan table holds exactly the destination ports of unabsorbed SYNs with this source and destination |
| DetectorProperties.FirstMatchFires | README.md:250-257 | the rule that absorbs a packet is the matching rule of highest priority, and some rule does if any matches |
| DetectorProperties.FiringPacket | src/detector.c:575-739 | a table rule fires only with its switch on and on the kind of packet it counts |
| DetectorProperties.StatelessFires | src/detector.c:741-904 | when no table rule fires, the first of risky port, echo request and SYN that is switched on fires, on exactly those packets |
| DetectorProperties.ReachableTables | src/detector.c:76-79 | in every reachable state the tables have 256 slots of 1 to 128 entries when in use, with distinct keys, and the history 256 entries used from the front |
| DetectorProperties.UnreachableThresholds | src/detector.c:111-130 | a rule whose threshold is negative or above 128 never fires |
| DetectorProperties.SynFloodSound | src/detector.c:588-594 | on a SYN-flood firing the rule is on and the window holds at least `threshold` SYNs of its source, destination and destination port |
| DetectorProperties.IcmpFloodSound | src/detector.c:699-705 | on an ICMP-flood firing the rule is on and the window holds at least `threshold` echo requests of its source and destination |
| DetectorProperties.PortScanSound | src/detector.c:645-651 | on a port-scan firing the rule is on and unabsorbed SYNs of its source and destination in the window reach at least `threshold` distinct ports |
| DetectorProperties.SuppressedByAlert | src/detector.c:549-554 | a match without alert is held back by a real alert of the same rule, source, destination and, for the port rules, destination port, within the cooldown |
| DetectorProperties.SharedCooldown | src/detector.c:493-504 | two matches share a cooldown if and only if they are the same incident: rule, source, destination and, for the port rules, destination port |
| DetectorProperties.NoCooldown | src/detector.c:538-540 | with a cooldown of zero or less every match raises an alert |
| DetectorProperties.SynFloodComplete | src/detector.c:575-630 | `threshold` SYNs of a flow within one window, the first with a slot, make the rule fire on one of them, in whatever order they come |
| DetectorProperties.IcmpFloodComplete | src/detector.c:687-739 | the same for echo requests |
| DetectorProperties.PortScanComplete | src/detector.c:632-685 | `threshold` distinct ports within one window make the port-scan rule fire on one of those SYNs |
| DetectorProperties.SynFloodExact | src/detector.c:575-630 | for a steady flow with room that is not saturated, the rule fires if and only if it is on and the packet is a SYN whose window holds `threshold` SYNs of its source, destination and destination port |
| DetectorProperties.IcmpFloodExact | src/detector.c:687-739 | for a steady pair with room that is not saturated, the rule fires if and only if it is on and the packet is an echo request whose window holds `threshold` of its source and destination |
| DetectorProperties.PortScanExact | src/detector.c:632-685 | for a steady pair with room and no more than 128 live ports, the rule fires if and only if it is on and the packet is an unabsorbed SYN whose window holds `threshold` ports of such SYNs; those are the ports stored |
| DetectorProperties.SynFloodRule | src/detector.c:575-630 | the same in ordered runs, with room and saturation counted over packets: at most 256 flows and 128 SYNs of the flow in the window of each of its SYNs |
| DetectorProperties.IcmpFloodRule | src/detector.c:687-739 | the same for echo requests |
| DetectorProperties.PortScanRule | src/detector.c:632-685 | the same for distinct ports of unabsorbed SYNs |
| DetectorProperties.OrderedRunSteady | src/detector.c:217-224 | in a run with times in order every flow and pair is steady |
| DetectorProperties.SynFloodNoticed | src/detector.c:575-630 | for a flow with a slot at every SYN and no later time before one: if the window of a SYN holds `threshold` SYNs of its flow, the rule fires on one of them, however full the slot |
| DetectorProperties.IcmpFloodNoticed | src/detector.c:687-739 | the same for echo requests |
| DetectorProperties.PortScanNoticed | src/detector.c:632-685 | the same for distinct ports of unabsorbed SYNs |
| DetectorOverflow.SaturatedUnflagged | src/detector.c:412-420 | for any window and threshold from 2, a run in order whose last packet goes unflagged although the log reaches the threshold there; up to 128 the rule fires earlier in the same window |
| DetectorOverflow.DisorderedFloodMissed | src/detector.c:217-286 | for any window and threshold from 2, a run with one SYN of another flow that carries a later time: the log reaches the threshold and the rule fires nowhere |
| DetectorProperties.AlertsFollowMap | src/detector.c:523-573 | in ordered runs with never more than 256 keys cooling down, an alert goes out if and only if a rule matches and the unbounded map allows it |
| DetectorProperties.AlertsFollowMapExactly | src/detector.c:523-573 | in any run, every match under a key is answered as the map says if and only if none of its alerts is forgotten |
| DetectorProperties.NextMatchDecided | src/detector.c:549-572 | in any run, an alert holds back a match of its key before the next alert if and only if it is still held and the match comes within the cooldown |
| DetectorOverflow.EchoAlertsTwice | src/detector.c:560-572 | 257 sources ping at one time and the last of them alerts twice under one key |
| DetectorOverflow.DisorderedAlertsTwice | src/detector.c:532-572 | three pings out of order, all recorded, and the first source alerts twice under one key at one time |
| DetectorProperties.AlertsFarApart | src/detector.c:523-573 | in any run, all alerts of a key are more than the cooldown apart if and only if none is forgotten |
| DetectorProperties.IncidentsFarApart | src/detector.c:493-573 | two alerts about one incident are more than the cooldown apart unless one is forgotten |
| DetectorProperties.RecordedNotForgotten | src/detector.c:523-573 | none is forgotten if all were recorded and the key is undisturbed |
| DetectorProperties.AlertRateBounded | src/detector.c:523-573 | if no alert of a key is forgotten, its matches within L seconds raise at most 1 + L / (C + 1) alerts |
| DetectorProperties.AlertReport | src/detector.c:179-206 | an alert reports the fields of its packet, the threshold and window of its rule, its severity, and the number and times of the entries it is based on; without an alert nothing is reported |
| DetectorProperties.EvidenceHonest | src/detector.c:603-623 | in ordered runs, threshold <= count <= 128 and window start <= first <= last <= now, both exact |
| SameView.RoomCarriesOver | src/detector.c:338-366 | a table with fewer keys finds a slot whenever the fuller one does |
| SameView.RecordCarriesOver | src/detector.c:560-572 | a history with fewer keys records whenever the fuller one does |
| Noninterference.RoomEnough | src/detector.c:338-366 | in ordered runs, no packet of a pair lacks room while no more than 256 keys are live at its packets and no more than 256 alert keys cool down |
| Noninterference.HostsDoNotInterfere | src/detector.c:853-904 | with room for a pair and no later time before one of its packets, deleting all packets of other pairs changes no result of it, in whatever order the others come |
| Frames.TrailingBytesIgnored | src/parser.c:192-237 | a prefix of a valid frame is valid if and only if it holds the datagram, and then reads alike |
| Frames.PaddingIgnored | src/parser.c:196-237 | bytes behind the datagram change nothing but the frame length |
| Parser.ParseTcp | src/parser.c:62-97 | ports and the six flags are filled exactly when the header and its options fit |
| Parser.ParseUdp | src/parser.c:99-117 | ports are filled exactly when the header fits and its length field is at least 8 |
| Parser.ParseIcmp | src/parser.c:119-135 | type and code are filled exactly when 8 bytes are there |
| Parser.ParsePacket | src/parser.c:142-243 | the stepwise parser returns the record read at the RFC offsets, valid exactly for valid frames; the frame length is capped at 65535 |
| FrameBuilder.BuiltFrameParses | src/parser.c:142-243 | parsing a built frame, padded or not, is valid and gives every field back, each TCP flag from its own bit |
| FrameBuilder.FlagBits | src/parser.c:89-95 | the six flag tests read bits 0 to 5 of the flag byte |
| FrameBuilder.ValidFrameIsBuilt | src/parser.c:163-240 | every valid frame is a built frame plus padding, so nothing else is accepted |
| PcapFormat.U32RoundTrip | src/pcap_reader.c:33-57 | 32-bit fields read back in either byte order |
| PcapFormat.GlobalHeaderRoundTrip | src/pcap_reader.c:59-129 | the header of each of the four formats is recognised |
| PcapFormat.HeaderExactly | src/pcap_reader.c:88-129 | a file is accepted in a format if and only if it starts with a header of that format: magic, version 2.4, link type 1 |
| PcapFormat.BadHeaderRefused | src/pcap_reader.c:147-150 | a file that starts with no such header delivers nothing, with status -1 |
| PcapFormat.WholeFits | src/pcap_reader.c:158-248 | the whole records before a cut are the longest run of records that fits |
| PcapFormat.CutFile | src/pcap_reader.c:158-248 | a file cut anywhere delivers exactly the whole records before the cut; status 0 only on a boundary or a met limit |
| PcapFormat.ReadsBackFile | src/pcap_reader.c:131-262 | writing records in any format and reading delivers them, or the first n of them |
| PcapFormat.RecordsInWritten | src/pcap_reader.c:158-248 | any bytes behind a header are whole records followed by bytes that start none: a cut record or one longer than 262144 |
| PcapFormat.DeliversWholeRecords | src/pcap_reader.c:158-248 | of any such bytes exactly the whole records are delivered, or as many as asked for; status 0 only if nothing is left behind them or the limit is met |
| PcapReader.Run | src/pcap_reader.c:149-262 | the reader loop terminates and does what the value-level reader does on any bytes |
| JsonEscape.UnescapeEscape | src/json_output.c:84-126 | the escape of any text is a legal JSON string for that very text |
| JsonEscape.EscapeShape | src/json_output.c:87-120 | which bytes are escaped as a pair, as six bytes, or stand for themselves |
| JsonEscape.EscapeClean | src/json_output.c:111-120 | no control byte is left in an escape |
| JsonEscape.PutEscape | src/json_output.c:87-123 | one character is escaped whole or not at all |
| JsonEscape.EscapeString | src/json_output.c:65-127 | the buffer ends as the escape of the longest fitting prefix, terminated, the rest untouched |
| Stats.StatsKeeper.UpdatePacket | src/stats.c:138-169 | the counters change as one packet requires |
| Stats.StatsKeeper.UpdateAlert | src/stats.c:171-206 | the counters change as one alert requires |
| Pipeline.AlertsConsistent | src/detector.c:575-851 | the rule of an alert determines its severity and the protocol of its packet |
| Pipeline.Conservation | src/processor.c:36-71 | over any run the counters balance and agree with the frames processed |
| Pipeline.CountersCountAlerts | src/processor.c:59-70 | every alert counter is the number of alerts of its rule, its severity, or all, in the detector's run over the frames |
| Pipeline.CountersCountFrames | src/stats.c:138-169 | the protocol counters are the numbers of frames of each kind |
| Pipeline.DetectorRunsOnArrivals | src/processor.c:49-59 | the detector sees exactly the valid frames, in order |
| Pipeline.ArrivalsNext | src/processor.c:49-59 | a valid frame arrives at its recorded time, or at the clock reading if it has none; an invalid one does not arrive |
| Replay.ReplaysWholeRecords | src/pcap_reader.c:158-248 | replaying a capture cut anywhere processes exactly its whole records, or as many as asked for, and the counters say so |
| Replay.ReplayedFramesDetected | src/pcap_reader.c:240-240 | frames captured to a file in any format and replayed reach the detector with their fields and times, in order, whatever the clock says |
| Processor.PacketProcessor.ProcessPacketEvent | src/processor.c:36-71 | the step parses, counts, detects and counts the alert as the value-level step does |
| ConfigText.ChunksAreLines | src/config.c:223-228 | the loader sees the lines of a file if and only if none is longer than 511 characters |
| ConfigText.TrimPadded | src/config.c:13-32 | trimming removes exactly the blanks around a text |
| ConfigText.BlankExactly | src/config.c:17-17 | which six characters are blank |
| ConfigText.DecimalRoundTrip | src/config.c:34-70 | decimal numbers read back |
| ConfigText.NumbersAccepted | src/config.c:34-70 | exactly which decimal numbers thresholds, windows and the cooldown accept |
| ConfigText.SwitchWords | src/config.c:72-93 | exactly which texts switch on and off, in any case; all others are rejected |
| ConfigText.SwitchesIgnoreCase | src/config.c:72-93 | texts that differ in case only are read alike |
| ConfigSpec.GetSet | src/config.c:254-283 | assigning one setting changes that setting only |
| ConfigSpec.Names | src/config.c:254-283 | every setting is found under its own name and no other |
| ConfigSpec.PaddedLine | src/config.c:229-252 | a line assigns what its value means for its name, whatever blanks stand around name and value |
| ConfigSpec.ThresholdLines | src/config.c:34-51 | a line for each threshold assigns exactly the numbers from 1 to 2^31 - 1, to that setting only |
| ConfigSpec.WindowLines | src/config.c:34-51 | the same for each window |
| ConfigSpec.CooldownLine | src/config.c:53-70 | the cooldown takes 0 as well |
| ConfigSpec.StatelessSwitchLines | src/config.c:72-93 | a line for each single-packet rule assigns what its word means, to that switch only |
| ConfigSpec.StatefulSwitchLines | src/config.c:72-93 | the same for each table rule |
| ConfigSpec.PathLines | src/config.c:146-169 | a path takes any text below 256 characters |
| ConfigSpec.NoAssignment | src/config.c:238-244 | a line without '=' assigns nothing |
| ConfigSpec.OneLineFile | src/config.c:223-290 | a file of one line of at most 511 characters is that line |
| ConfigSpec.ShippedIsDefault | config/giftids.conf:3-23 | the settings of the shipped configuration file are the built-in defaults |
| ConfigSpec.LoadingKeepsGood | src/config.c:95-169 | whatever a file holds, all six thresholds and windows stay positive, the cooldown non-negative, the six switches 0 or 1, both paths non-empty and below 256 characters |
| ConfigSpec.LoadedOverDefaults | src/config.c:171-198 | so every configuration loaded over the defaults satisfies what the detector needs |
| ConfigSpec.LastAssignmentWins | src/config.c:223-290 | with short lines each setting ends as its last valid assignment, or as it was |
| ConfigSpec.LoadsWhatWasWritten | src/config.c:200-300 | writing settings out in any order and loading the file gives them back |
| ConfigSpec.LongCommentAssigns | src/config.c:223-231 | the bound on line lengths is needed: the end of a long comment assigns a setting |
| ConfigLoader.SkipBlanks | src/config.c:17-19 | finds the left-trimmed text in the buffer |
| ConfigLoader.LastInk | src/config.c:25-28 | finds the last character that is not blank |
| ConfigLoader.TrimWhitespace | src/config.c:13-32 | trims a C string in place and touches nothing outside it |
| ConfigLoader.ReadLine | src/config.c:223-223 | one buffer holds one line, or 511 characters of it |
| ConfigLoader.ParseLine | src/config.c:229-290 | taking a line apart in place finds the assignment the text makes |
| ConfigLoader.ConfigFile.Load | src/config.c:200-300 | the loop over the file ends with the settings the file assigns |

## Left out

- SharingExactly: the converse is for flood tables whose other keys come only when nothing of them is live; otherwise it fails, depending on slot positions (`EarlierSlotShields`).
- Live capture (`src/capture.c`), start-up (`src/main.c`) and the command line (`src/cli.c`): operating-system plumbing and one-flag branches; the packet limit is an input of the PCAP reader.
- Logs, reports and the JSON event lines around the escaper (`src/logger.c`, `src/report.c`, the formatting functions of `src/json_output.c`): fixed print sequences without state.
- Message, evidence and recommendation texts of alerts: only the numeric evidence is modelled, and alert types and protocols are enumerations instead of strings.
- The system clock: the time of a packet, or the clock reading used for a zero timestamp, is an input and is never zero.
- `inet_ntop`: an address is its four bytes, so string comparison is address comparison.
- Files: a PCAP or configuration file is its sequence of bytes; opening, read errors and memory exhaustion do not occur.
- Warnings on odd PCAP fractions and lengths: they change nothing that is delivered; the packet handler is modelled as a list of deliveries.
- Re-initialising a running detector, and the default configuration used when it was never initialised.
- Zeroing a claimed slot: entries beyond the count are never read, so only the header is reset.
- Counters do not wrap at 2^64, and times are unbounded integers whose differences are exact.
- `strtol`, `strcasecmp` and `isspace` are modelled as functions on the C locale; the overflow error of `strtol` coincides with the range check that follows it.
