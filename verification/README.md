# Verification of the AmneziaWG Windows client

A model of the parts of the client that compute: the configuration
highlighter, the shared-memory ring log and the stream writer in front of it,
the port firewall with its rule text, the rewriting of allowed addresses, the
installer's release list and the two version orders, and the domain-routing
manager with its DNS proxy. Each file holds one component; `dfyconfig.toml`
lists them all.

Bytes are characters below 256, except in `Signify.dfy` and `FileList.dfy`,
where they are 8-bit vectors because the C code works on bits. Loops and
objects of the source are methods, loops and classes here, proved against
functions and predicates; the laws about those are the lemmas.

| file | component |
|---|---|
| Text, AddressGrammar, Base64 | strings, the address grammars of RFC 4291 and the base64 of RFC 4648 |
| StringSpan, HighlightGrammar, HighlightLaws, Highlighter | the validators, the grammar of lines and values, the texts without an error by a table of names, and the walk that finds the spans |
| RingLogger, GlobalWriter | the ring of log lines with its protocol, and the chunking writer |
| PortRanges, PortFirewall, FirewallManager, PortRulesText | interval algebra, rules and what they block, the manager with its history, the text form |
| Cidr, LoopbackExclusion, UntunneledTraffic | covered address sets and the two rewrites |
| Signify, Versions, FileList | the branch-free decoders, version orders and the selection |
| DomainRules, RoutingState, RoutingProofs, RoutingLaws, DomainRouting, DnsProxy | rules, the steps as functions, what every run keeps, what each step brings about, the manager's methods, the query handler |

Results that differ from what the code's comments or names suggest:

* `isValidIPv6` looks one byte past its span. A colon there makes texts of one
  to seven groups pass (`StringSpans.ColonPastTheEnd`); no caller in the
  highlighter lets a colon follow.
* `isValidScope` rejects letters and accepts everything else.
* A ring reader that falls 2048 claims or more behind loses whole laps
  (`RingLog.LagSkipsLaps`), and a reader that meets a slot which is claimed
  but not yet invalidated repeats the line of the lap before
  (`RingLog.ClaimedIsStale`).
* The loopback exclusion takes `::/0` for `0.0.0.0/0`
  (`LoopbackExclusion.AllOfV6IsLost`), and two of the 32 subnets are enough to
  be taken for the pattern, so that a user's own two entries can gain addresses
  (`LoopbackExclusion.OwnHalvesGain`). `LoopbackExclusion.RoundTripKeepsCoverage`
  says for which lists the covered addresses survive.
* A malformed hash on a later line overwrites the hash of the chosen file
  (`FileList.HashIsOwn`).
* A host route of the user's that the manager adopts is deleted with the
  manager's own (`RoutingProofs.AdoptedIsDeleted`,
  `RoutingProofs.LoopbackIsTaken`), and a running tunnel that is selected loses
  the host routes of its AllowedIPs
  (`RoutingProofs.SelectedLosesRoutes`).
* When reading the DNS servers of the default interface fails during
  activation, an interface that is overridden then is left without servers
  (`RoutingProofs.ReadDecides`).
* A managed tunnel whose setting cannot be restored when another one is selected
  is forgotten when that one starts (`RoutingProofs.ForgottenStaysOn`).
* Refreshing an entry changes its target but not its interface
  (`DnsProxy.EntriesNeverMove`), and a failure to add its lost route again is
  not reported, not even in strict mode (`DnsProxy.UnroutedIsDelivered`).
* The updater compares all parts of a version, the installer the first four
  (`Versions.Disagreement`).
* Starting a second tunnel while one is active leaves the first one's firewall
  rules behind until that one is started and stopped again
  (`FirewallManager.SecondStartLeavesRules`, `FirewallManager.RulesLeft`).

## Model

| member | source | states |
|---|---|---|
| `AddressGrammar.DottedQuadIsRendering` | ui/syntax/highlighter.go:171-191 | the dotted quads are exactly the renderings of four octets: four parts, each at most 255 and without leading zeros |
| `StringSpans.Classes` | ui/syntax/highlighter.go:69-79 | the bit tricks of the character classes are the decimal, hexadecimal and alphabetic characters |
| `StringSpans.StringSpan.IsSame` | ui/syntax/highlighter.go:90-101 | byte-wise equality with a word |
| `StringSpans.StringSpan.IsCaselessSame` | ui/syntax/highlighter.go:103-122 | the wrapping byte subtraction and the mask 95 compare letters without regard to case, and all other bytes as they are |
| `StringSpans.StringSpan.IsValidKey` | ui/syntax/highlighter.go:124-138 | accepts exactly the canonical base64 texts of 32 bytes (sections 3.5 and 4 of RFC 4648) |
| `Base64.KeyText` | ui/syntax/highlighter.go:124-138 | 44 characters of the right classes with a last one that leaves two bits clear: exactly the encodings of 32 bytes, in both directions |
| `Base64.EncodeInjective` | installer/fetcher/filelist.c:29-44 | different byte strings of one length never share a text |
| `StringSpans.StringSpan.IsValidHostname` | ui/syntax/highlighter.go:140-169 | accepts exactly up to 63 letters, digits, dots and hyphens, no dot or hyphen at the ends, not digits and dots alone |
| `StringSpans.StringSpan.IsValidIPv4` | ui/syntax/highlighter.go:171-191 | accepts exactly the dotted quads, with every read inside the terminated buffer |
| `StringSpans.StringSpan.IsValidIPv6` | ui/syntax/highlighter.go:193-245 | accepts exactly the address texts of section 2.2 of RFC 4291, plus one to seven plain groups when the byte after the span is a colon |
| `StringSpans.StringSpan.ScanIPv6` | ui/syntax/highlighter.go:193-245 | the scanning loop under that contract, whatever the span starts with |
| `StringSpans.ColonPastTheEnd` | ui/syntax/highlighter.go:193-245 | the byte after the span matters exactly when it is a colon: 1:2 then passes, and otherwise acceptance is the grammar alone |
| `StringSpans.StringSpan.IsValidUint` | ui/syntax/highlighter.go:247-272 | accepts exactly one to ten digits with a value between the two bounds |
| `StringSpans.StringSpan.IsValidPort` | ui/syntax/highlighter.go:274-276 | accepts exactly the numbers up to 65535 |
| `StringSpans.StringSpan.IsValidScope` | ui/syntax/highlighter.go:298-308 | accepts exactly 1 to 64 bytes without a letter |
| `StringSpans.StringSpan.IsValidEndpoint` | ui/syntax/highlighter.go:310-353 | accepts exactly host, colon and port, the host a dotted quad, a name or a bracketed address with an optional scope |
| `StringSpans.StringSpan.IsValidBracketed` | ui/syntax/highlighter.go:314-342 | the bracketed form of an endpoint |
| `StringSpans.StringSpan.IsValidNetwork` | ui/syntax/highlighter.go:355-379 | accepts exactly an address, or an address and a prefix length up to 32 or 128 around the first slash; without a slash a colon behind the text counts as it does for an address |
| `StringSpans.StringSpan.IsValidPrefix` | ui/syntax/highlighter.go:356-376 | the part of that check behind a slash |
| `Highlighter.LookUpField` | ui/syntax/highlighter.go:448-514 | the switch over caseless comparisons finds the field that a key names |
| `Highlighter.LookUpSection` | ui/syntax/highlighter.go:516-524 | and the section that a header names |
| `Highlighter.IsValidHeader` | ui/syntax/highlighter.go:381-393 | one number below 2^31, or two around the first hyphen |
| `Highlighter.IsValidTable` | ui/syntax/highlighter.go:282-284 | off, auto, main or a 32-bit number |
| `Highlighter.Validate` | ui/syntax/highlighter.go:597-667 | the highlight of a single-valued field is its own exactly when the text is in the field's grammar |
| `Highlighter.HighlightSpanArray.Append` | ui/syntax/highlighter.go:528-533 | adds one span, or nothing for an empty text, and keeps the tiling |
| `Highlighter.HighlightSpanArray.HighlightMultivalueValue` | ui/syntax/highlighter.go:535-566 | one item becomes an address, a name, address-slash-length or an error, exactly as its grammar says, and keeps the tiling |
| `Highlighter.HighlightSpanArray.HighlightMultivalue` | ui/syntax/highlighter.go:568-595 | a list gets exactly the spans of its trimmed items and of the commas between them; a comma at the end is an error; the last span is only read when there is one |
| `Highlighter.HighlightSpanArray.WalkItems` | ui/syntax/highlighter.go:569-594 | the walk over the items gives what the list grammar gives, which splits at the last comma instead |
| `Highlighter.ListExact` | ui/syntax/highlighter.go:589-594 | the end of the list: the last item, or a comma that turns into an error |
| `Highlighter.TrimmedItem` | ui/syntax/highlighter.go:569-588 | the item that the walk has found is the stretch between two commas without the blanks around it |
| `Highlighter.HighlightSpanArray.HighlightValue` | ui/syntax/highlighter.go:597-667 | a value gets exactly the spans that the grammar of its field gives it, and keeps the tiling |
| `Highlighter.HighlightSpanArray.HighlightEndpoint` | ui/syntax/highlighter.go:615-630 | an endpoint is split at its last colon into host, delimiter and port, or is an error as a whole |
| `Highlighter.HighlightSpanArray.EndOfLine` | ui/syntax/highlighter.go:688-709 | the spans and the section that the end of a line adds in each state of the walk |
| `Highlighter.HighlightSpanArray.EndOfKey` | ui/syntax/highlighter.go:725-736 | the key of a setting gets the highlight of its name and section, which HighlightLaws.KeyIsListed gives by the tables of names, and the walk goes on in the value |
| `Highlighter.HighlightSpanArray.FinishKey` | ui/syntax/highlighter.go:725-738 | the key of a setting is highlighted and the walk goes on behind the equals sign, on the same line of the grammar |
| `Highlighter.HighlightSpanArray.FinishLine` | ui/syntax/highlighter.go:687-720 | at the end of a line or of its code the spans are those of the lines so far, and the walk goes on at the next line or in the comment |
| `Highlighter.CodeExact` | ui/syntax/highlighter.go:688-747 | what the walk has found of the code of a line (key, equals sign, value, header, or none) is what the line grammar splits it into, with the section it leaves |
| `Highlighter.LineEnds` | ui/syntax/highlighter.go:687-720 | a line with its comment adds exactly its own spans to those of the lines before it |
| `Highlighter.WalkConfig` | ui/syntax/highlighter.go:669-751 | the walk over the text ends with the spans of the line grammar and keeps the tiling |
| `Highlighter.HighlightConfig` | ui/syntax/highlighter.go:669-751 | for every text the spans are exactly those of a line-by-line grammar written without any walk; they tile the text and fit the grammars of their highlights; and none is an error exactly when the text is well-formed |
| `HighlightLaws.ErrorsExactly` | ui/syntax/highlighter.go:669-751 | no span is an error exactly when every line is, up to its comment, empty, the header of a section, or a name that the section it stands in lists in a table of small-letter names, with a value that this name allows; said by lines and strings alone, without the fields of the walk |
| `HighlightLaws.LineTold` | ui/syntax/highlighter.go:669-751 | and so for each single line and the section that it starts in: an error in exactly the other lines, and the section it leaves the next one in |
| `HighlightLaws.KeyIsListed` | ui/syntax/highlighter.go:433-524 | for every name and section: the key is a field exactly when the section lists the name, in capitals or not, and an error otherwise |
| `HighlightLaws.ValueIsShown` | ui/syntax/highlighter.go:597-667 | for every name whose value is one text: the value has the highlight of that name exactly when it is in the name's grammar, and is an error otherwise |
| `HighlightLaws.ValueKinds` | ui/syntax/highlighter.go:535-667 | the spans of a value are of the kinds that its name has: names or addresses, addresses with prefix lengths, a host with its port, or the one of its own |
| `HighlightLaws.ItemIsShown` | ui/syntax/highlighter.go:535-566 | an item of a DNS list is an address whenever it can be one, and otherwise a host or an error |
| `Highlighter.TiledMeans` | ui/syntax/highlighter.go:669-751 | tiling is the same as: non-empty, in bounds, strictly ordered, disjoint, and only blanks and line ends outside |
| `Highlighter.GoodMeans` | ui/syntax/highlighter.go:669-751 | so for every text: non-empty ordered disjoint spans, nothing but blanks outside, and every span in the grammar of its highlight |
| `RingLog.ShownRendered` | ringlogger/ringlogger.go:136-148 | a line shows the tag and the message, cut to 511 bytes, up to the first NUL, for every tag and message |
| `Text.TrimIsMiddle` | ringlogger/ringlogger.go:117 | trimming leaves exactly the stretch from the first byte that is not blank to the last one, and nothing of blanks alone |
| `RingLog.FillLine` | ringlogger/ringlogger.go:132-147 | the byte writes leave the rendered line, cut to 511 bytes and filled with NULs |
| `RingLog.ClaimKeeps` | ringlogger/ringlogger.go:126-128 | claiming a slot disturbs nothing |
| `RingLog.StepKeeps` | ringlogger/ringlogger.go:130-148 | a step of the latest writer of a slot disturbs no other claim, across the wrap of the index |
| `RingLog.RingLogger.ClaimIndex` | ringlogger/ringlogger.go:127 | the claim is the next one in order, and its slot survives the 32-bit wrap of the index |
| `RingLog.RingLogger.Invalidate` | ringlogger/ringlogger.go:131 | the stamp is cleared and the claim moves on, nothing else |
| `RingLog.RingLogger.Scribble` | ringlogger/ringlogger.go:132-147 | half-written bytes never become visible |
| `RingLog.RingLogger.Fill` | ringlogger/ringlogger.go:132-147 | the slot holds the rendered line, still invisible |
| `RingLog.RingLogger.Publish` | ringlogger/ringlogger.go:148 | the line becomes visible under its own stamp |
| `RingLog.RingLogger.WriteWithTimestamp` | ringlogger/ringlogger.go:112-151 | one undisturbed write of a message with any byte that is not blank adds one published claim, whose line renders the bytes from the first to the last such one; blanks alone, or a read-only ring, add nothing |
| `RingLog.RingLogger.FollowFromCursor` | ringlogger/ringlogger.go:185-220 | a read delivers exactly the published claims from its cursor up to the first pending one; from CursorAll every visible line |
| `RingLog.FollowOn` | ringlogger/ringlogger.go:199-218 | the reading loop: prompt reads are exact, and a read is stale exactly when the first missing claim has not been invalidated yet |
| `RingLog.FollowAll` | ringlogger/ringlogger.go:199-218 | the reading loop from CursorAll skips what is not visible and resumes behind the last line shown |
| `RingLog.RingLogger.WriteTo` | ringlogger/ringlogger.go:153-176 | the dump lists the visible lines of the last lap in order |
| `RingLog.FusedIsPrompt` | ringlogger/ringlogger.go:127-131 | when claim and invalidation are one step, every read is prompt |
| `RingLog.FusedRunKeepsInStep` | ringlogger/ringlogger.go:112-220 | with claim and invalidation as one step, every interleaving of writers and reads keeps a reader in step that is never 2048 claims behind |
| `RingLog.PromptMeansBlank` | ringlogger/ringlogger.go:204-210 | a read is prompt exactly when the slot that it stops at has no stamp |
| `RingLog.ClaimedIsStale` | ringlogger/ringlogger.go:127-131 | a full lap and one more claim whose slot is not invalidated yet: a reader that is up to date gets the oldest line again |
| `RingLog.LagSkipsLaps` | ringlogger/ringlogger.go:194-203 | a read resumes a whole number of laps further on, so nothing is lost exactly when fewer than 2048 claims are pending |
| `RingLog.ReadFrom` | ringlogger/ringlogger.go:185-220 | a read moves the reader to the first unpublished claim |
| `RingLog.RunKeepsInStep` | ringlogger/ringlogger.go:112-220 | over every interleaving of claims, separate writer steps and reads in which each read is prompt and less than 2048 claims behind, the delivered lines are the claims in order, each once, each published |
| `RingLog.RunWrites` | ringlogger/ringlogger.go:112-220 | and those claims are exactly the lines that the run has claimed, in that order, each as far on as its writer has made steps |
| `RingLog.FusedRunWrites` | ringlogger/ringlogger.go:112-220 | so are the claims of a run that claims and invalidates in one step |
| `RingLog.CatchUp` | ringlogger/ringlogger.go:185-220 | once all writers are done one read delivers the rest, and a second one nothing |
| `RingLog.AllVisible` | ringlogger/ringlogger.go:194-218 | a read of everything, with all claims published, shows the last lap and leaves the reader in step |
| `GlobalWriter.Writer.Write` | ringlogger/global.go:39-63 | flushed chunks and buffer are all input in order; only the last chunk of a call may have room left |
| `GlobalWriter.Writer.Step` | ringlogger/global.go:41-61 | one round makes progress, also the one that copies nothing because the buffer is full |
| `GlobalWriter.Writer.Flush` | ringlogger/global.go:57-60 | a chunk goes out because it holds a line end or is full |
| `GlobalWriter.NeverCut` | ringlogger/global.go:34 | no flushed chunk is cut by the ring, for any tag of at most five bytes |
| `PortRanges.MergeRanges` | manager/portfirewall.go:206-224 | sorted ranges at least one port apart with the same ports |
| `PortRanges.ComplementRanges` | manager/portfirewall.go:227-243 | exactly the ports from 1 to 65535 in none of the ranges, in canonical form |
| `PortRanges.SortByFrom` | manager/portfirewall.go:211 | a permutation sorted by start, ties in any order |
| `PortRanges.CanonicalUnique` | manager/portfirewall.go:206-224 | equal port sets have one canonical form, so that the order of the ranges does not matter |
| `PortRanges.ComplementTwice` | manager/portfirewall.go:227-243 | complementing twice is merging |
| `PortFirewall.NormalizePortRules` | manager/portfirewall.go:182-202 | the loop maps every rule to its normal form |
| `PortFirewall.NormalizedIsNormal` | manager/portfirewall.go:182-202 | the normal form has a known protocol and ordered ports from 1, and exactly these ports: those between two ends in either order, the first end alone when the second is zero, and those from 1 on when the first is |
| `PortFirewall.ProtocolForms` | manager/portfirewall.go:186-189 | a protocol is known in capitals or not and with blanks around it |
| `PortFirewall.OtherProtocol` | manager/portfirewall.go:186-189 | and any other text means both |
| `PortFirewall.NormalIsFixed` | manager/portfirewall.go:182-202 | the normal rules are exactly the fixed points |
| `PortFirewall.ParseModeName` | manager/portfirewall.go:24-44 | a mode's name parses to the mode, in capitals or not and with blanks around it |
| `PortFirewall.OtherMode` | manager/portfirewall.go:35-44 | and any other text means off |
| `PortFirewall.EffectiveBlockRanges` | manager/portfirewall.go:247-267 | blocks per protocol exactly the listed ports, exactly the unlisted ones, or none |
| `PortFirewall.OneRuleBlocks` | manager/portfirewall.go:247-267 | a rule for one protocol blocks its ports for that one only, and a rule for both for either |
| `PortFirewall.ListsShare` | manager/portfirewall.go:247-267 | blacklist and whitelist share the ports from 1 to 65535 among them, and every rule of a blacklist counts |
| `FirewallManager.Manager.ApplyRules` | manager/portfirewall.go:269-303 | a script that runs makes the group of the active tunnel realize mode and rules and touches no other group |
| `FirewallManager.Manager.OnTunnelStateChange` | manager/portfirewall.go:108-124 | each tunnel event moves one group at most, as recorded in the history of calls; after a start the settings are applied exactly when the script ran |
| `FirewallManager.Manager.SetRules` | manager/portfirewall.go:135-147 | the new settings are normalized, and after a successful call applied to the active tunnel |
| `FirewallManager.MovesExplained` | manager/portfirewall.go:108-147 | one more call keeps every group what the history of its tunnel says |
| `FirewallManager.RulesLeft` | manager/portfirewall.go:108-147 | after every sequence of calls: the active tunnel's group blocks what the settings ask for if they were applied, and another tunnel has rules left exactly when it was replaced by a start while active (so that its own stop found another one active, or is still to come), its removal failed, or they are of an earlier run, and there was something to block |
| `FirewallManager.OrderlyLeavesNothing` | manager/portfirewall.go:108-124 | when no tunnel starts while another one is active and every removal runs, no rules outlive a tunnel |
| `FirewallManager.SecondStartLeavesRules` | manager/portfirewall.go:108-124 | a second start while a tunnel is active makes the first one's stop come too late for its rules; its next start and stop remove them |
| `PortRulesText.ParsePortRulesText` | ui/portfirewallpage.go:333-372 | all lines good and their rules in order, or the first bad line by number and text; the rules are fixed points of normalization |
| `PortRulesText.ParseOne` | ui/portfirewallpage.go:340-369 | what one line yields |
| `PortRulesText.ParsedIsNormal` | ui/portfirewallpage.go:365-369 | a parsed rule is a fixed point of normalization |
| `PortRulesText.LineIsRule` | ui/portfirewallpage.go:340-369 | a line is a rule exactly when it is written as one port, or two with a hyphen, behind tcp: or udp: for one protocol only, in capitals or not and with blanks wherever two parts meet, and the ports are ordered, from 1 to 65535 |
| `PortRulesText.LineIsBlank` | ui/portfirewallpage.go:341-344 | it is skipped exactly when it has nothing but blanks, or a # as its first other character |
| `PortRulesText.FirstLine` | ui/portfirewallpage.go:334-336 | what is in front of the first line end is the first line, whether that is LF, CR LF or CR |
| `PortRulesText.FormatPortRulesText` | ui/portfirewallpage.go:374-389 | one line per rule, joined by CR LF |
| `PortRulesText.FormattedLines` | ui/portfirewallpage.go:333-336 | splitting formatted text at its line ends gives the rules' own lines back |
| `PortRulesText.RoundTrip` | ui/portfirewallpage.go:333-389 | parsing what was formatted from normalized rules succeeds and gives them back |
| `Cidr.BlockContains` | manager/domainrouting.go:1525-1576 | an aligned prefix contains exactly the addresses of its block |
| `LoopbackExclusion.SubnetsExactlyOnce` | manager/domainrouting.go:1525-1576 | the 32 subnets contain every IPv4 address but 127.0.0.1 exactly once |
| `LoopbackExclusion.ExcludeLoopback` | manager/domainrouting.go:1411-1435 | every peer's list has its /0 entries replaced |
| `LoopbackExclusion.ExcludedInOrder` | manager/domainrouting.go:1411-1435 | the entries keep their order, and the subnets come in the place of each /0 entry |
| `LoopbackExclusion.ExcludedCovers` | manager/domainrouting.go:1411-1435 | what a list covers after exclusion: the other entries, and all of IPv4 but 127.0.0.1 |
| `LoopbackExclusion.RestoreLoopback` | manager/domainrouting.go:1439-1463 | every list that shows the pattern loses the subnets and gets 0.0.0.0/0 |
| `LoopbackExclusion.RemainingInOrder` | manager/domainrouting.go:1446-1453 | what is no subnet stays in its order, duplicates included |
| `LoopbackExclusion.FindPattern` | manager/domainrouting.go:1466-1480 | two of the subnets are taken for the pattern |
| `LoopbackExclusion.PatternNeedsBoth` | manager/domainrouting.go:1466-1480 | the pattern is found exactly when 0.0.0.0/2 and 128.0.0.0/1 are both in the list |
| `LoopbackExclusion.RestoreAfterExclude` | manager/domainrouting.go:1411-1463 | restoring after excluding leaves no subnet behind and covers all of IPv4 and whatever the entries not replaced cover of IPv6 |
| `LoopbackExclusion.RestoreKeepsCoverage` | manager/domainrouting.go:1439-1480 | for every list, restoring keeps the covered addresses exactly when the pattern is not found or the list covers all of IPv4 |
| `LoopbackExclusion.RoundTripKeepsCoverage` | manager/domainrouting.go:1411-1480 | for every list, excluding and restoring keeps the covered addresses exactly when: with an entry for everything, 0.0.0.0/0 is in the list or the other entries cover IPv4, and ::/0 is not in it or they cover IPv6; without one, the pattern is not found or the list covers IPv4 |
| `LoopbackExclusion.PlainListsSurvive` | manager/domainrouting.go:1411-1463 | every list with 0.0.0.0/0 and without ::/0 meets that condition |
| `LoopbackExclusion.OwnHalvesGain` | manager/domainrouting.go:1466-1480 | a user's own 0.0.0.0/2 and 128.0.0.0/1 come back as 0.0.0.0/0, which adds 64.0.0.0 |
| `LoopbackExclusion.AllOfV6IsLost` | manager/domainrouting.go:1421 | ::/0 is taken for 0.0.0.0/0 and comes back as it |
| `UntunneledTraffic.OnCheckedChanged` | ui/editdialog.go:189-286 | the rewrite of the only peer's list, or no change |
| `UntunneledTraffic.WhenPossible` | ui/editdialog.go:189-286 | unchecking is possible exactly with an entry for all of a family, and checking exactly with the two halves of one family |
| `UntunneledTraffic.KeptInOrder` | ui/editdialog.go:189-286 | the other entries stay in their order, duplicates included |
| `UntunneledTraffic.CheckKeepsCoverage` | ui/editdialog.go:214-251 | checking the box changes no covered address, for every list |
| `UntunneledTraffic.UncheckKeepsCoverage` | ui/editdialog.go:252-278 | neither does unchecking it |
| `UntunneledTraffic.UncheckThenCheck` | ui/editdialog.go:189-286 | unchecking and checking again gives the /0 entries back; a list without halves has the entries it had |
| `Signify.LaneIsSixBits` | installer/fetcher/filelist.c:19-25 | the sum of masks without branches is the lookup with branches, for every byte |
| `Signify.DecodeBase64` | installer/fetcher/filelist.c:14-27 | the sign of a group tells whether all four characters are of the alphabet, and then its bytes encode to them |
| `Signify.PubkeyFromBase64` | installer/fetcher/filelist.c:29-44 | true exactly on the canonical encodings of 42 bytes, which are then written |
| `Signify.SignatureFromBase64` | installer/fetcher/filelist.c:46-68 | true exactly on the canonical encodings of 74 bytes, which are then written |
| `Signify.HashFromHex` | installer/fetcher/filelist.c:70-96 | true exactly on 64 hexadecimal digits; the bytes are written either way |
| `Signify.HexRoundTrip` | installer/fetcher/filelist.c:70-96 | the hexadecimal text of any bytes decodes to them |
| `Signify.HexExactly` | installer/fetcher/filelist.c:70-96 | a text decodes to given bytes exactly when it is their hexadecimal text, in capitals or not |
| `Versions.ParseVersion` | installer/fetcher/filelist.c:98-118 | the packed value of up to four fields, zero when malformed |
| `Versions.DisjointOr` | installer/fetcher/filelist.c:111 | or-ing a field into clear bits is adding it |
| `Versions.ParsedIsPacked` | installer/fetcher/filelist.c:98-118 | a version whose first four parts are decimal numbers up to 65535, or empty for zero, packs them in order |
| `Versions.BadIsZero` | installer/fetcher/filelist.c:105-116 | a version with anything else among its first four parts is read as zero, unless that starts with a blank |
| `Versions.VersionNewerThanUs` | updater/versions.go:17-54 | the comparison part by part, with an answer at the first difference |
| `Versions.CompareExactly` | updater/versions.go:17-54 | for any two versions: an error exactly when the first parts that are not the same number up to 65535 are no such numbers, and newer exactly when the candidate's is larger |
| `Versions.Disagreement` | updater/versions.go:17-54 | for valid versions of any length the comparison and the order of the packed values disagree exactly when the first four parts are equal and the candidate is newer by a later one |
| `Versions.FifthPartCounts` | updater/versions.go:17-54 | such versions: 1.0.0.0.1 and 1 |
| `Versions.Agreement` | updater/versions.go:17-54 | for versions of one to four parts up to 65535 the comparison agrees with the order of the packed values |
| `Versions.FindCandidate` | updater/versions.go:56-75 | a candidate found is strictly newer; none is found only when none is newer |
| `Versions.InstallerNames` | updater/versions.go:60-61 | the version of prefix, text and .msi is the text, and no other name has one |
| `Versions.InstallerVerdict` | updater/versions.go:59-74 | and what is said of it: an error exactly when it is longer than 128 bytes or cannot be compared, newer exactly when its parts are |
| `FileList.ChosenIsLastMaximum` | installer/fetcher/filelist.c:148-166 | the file chosen is the last one of the largest version among the lines with a well-formed hash, and its hash is the last one written |
| `FileList.LinesLaid` | installer/fetcher/filelist.c:148-151 | the lines are exactly those that line ends close, one after the other, and what follows the last line end is none |
| `FileList.OfferIsFile` | installer/fetcher/filelist.c:152-163 | 64 bytes, two blanks, the prefix, a version and .msi offer the file of that name with that version and those hash bytes |
| `FileList.OnlyFilesAreOffered` | installer/fetcher/filelist.c:152-157 | and no other line offers anything |
| `FileList.ChosenHashIsOwn` | installer/fetcher/filelist.c:158-165 | with all hashes well-formed the hash is the chosen file's own |
| `FileList.HashIsOwn` | installer/fetcher/filelist.c:148-166 | for every list, the hash is the chosen file's own unless a later line with a malformed hash has at least its version; then it is what the last such line wrote |
| `FileList.HashOfAnotherLine` | installer/fetcher/filelist.c:161-162 | a list of two lines of one version, the second one with a malformed hash: the first file is chosen with the bytes of the second hash |
| `FileList.SpoiledList` | installer/fetcher/filelist.c:148-166 | such a list, byte by byte: a file with the hash 11...1 and once more with gg...g, which is chosen with the hash 00...0 |
| `FileList.VerifyEnvelope` | installer/fetcher/filelist.c:130-147 | true exactly when the list is framed and its signature line holds a signature of the rest by the key |
| `FileList.FrameIsRead` | installer/fetcher/filelist.c:132-141 | a comment line with the right start, a line of 100 bytes and a rest make a framed list, with that signature and that body |
| `FileList.OnlyFramesAreRead` | installer/fetcher/filelist.c:132-141 | and no other list is framed |
| `FileList.TakeLine` | installer/fetcher/filelist.c:149-165 | what one line does to the outputs |
| `FileList.Select` | installer/fetcher/filelist.c:148-166 | the loop leaves name, hash and version of the choice over all lines |
| `FileList.ExtractNewestFile` | installer/fetcher/filelist.c:120-168 | nothing is written unless the list is authentic; then true exactly when the chosen version is not zero |
| `DomainRules.NormalizeRules` | manager/domainrouting.go:1139-1150 | every rule is normalized, loses a leading star, and is dropped when empty |
| `DomainRules.RuleForms` | manager/domainrouting.go:1133-1149 | a name with or without a leading star, a dot at its end, capitals and blanks around it is one rule |
| `DomainRules.NameForms` | manager/domainrouting.go:1133-1137 | and so is a name that is asked for, but for the star |
| `DomainRules.KeptExactly` | manager/domainrouting.go:1139-1150 | the kept rules are exactly the normalized ones that are not empty, in their order |
| `DomainRules.MatchesByLabels` | manager/domainrouting.go:1152-1159 | a rule matches exactly when its labels end the name's labels |
| `DomainRules.FindMatch` | manager/domainrouting.go:1152-1159 | the loop over the rules |
| `DomainRules.MatchInherited` | manager/domainrouting.go:1152-1159 | matching is inherited by every subdomain |
| `DomainRules.DecideRoute` | manager/domainrouting.go:761-801 | the decision for the normalized name |
| `DomainRules.DecisionInherited` | manager/domainrouting.go:761-801 | how the decision for a name bounds the decision below it |
| `DomainRules.Priorities` | manager/domainrouting.go:770-800 | the decision by label suffixes, in both directions for each target: blocking comes before every list mode, direct before tunnel with separate lists |
| `DomainRules.OneMoreBlock` | manager/domainrouting.go:770-800 | one more block rule blocks exactly the names below it in addition and changes no other decision |
| `DomainRules.ParseListModeName` | manager/domainrouting.go:69-88 | a list mode's name parses to the mode, in capitals or not and with blanks around it |
| `DomainRules.OtherListMode` | manager/domainrouting.go:79-88 | and any other text means separate lists |
| `RoutingState.BestIsBest` | manager/domainrouting.go:1229-1248 | the default route is the first of the eligible rows with the smallest metric, or none is eligible |
| `DomainRouting.Manager.ClearRoutesLocked` | manager/domainrouting.go:752-759 | every entry is dropped, and every route whose deletion works is gone |
| `DomainRouting.Manager.CleanupExpiredRoutes` | manager/domainrouting.go:341-355 | exactly the expired entries are dropped |
| `DomainRouting.Manager.ClearAllRoutes` | manager/domainrouting.go:362-373 | all entries are dropped |
| `DomainRouting.Manager.VerifyAndRepairRoutes` | manager/domainrouting.go:280-312 | missing routes of tracked entries are added again |
| `DomainRouting.Manager.AddRouteForIP` | manager/domainrouting.go:803-855 | an entry is refreshed, added or adopted, with its interface, next hop and expiry |
| `DomainRouting.Manager.BuildRouteEntry` | manager/domainrouting.go:857-885 | the entry on the tunnel or on the default route |
| `DomainRouting.Manager.RestoreDNSLocked` | manager/domainrouting.go:730-739 | both overrides are put back and forgotten |
| `DomainRouting.Manager.ApplyDNSLocked` | manager/domainrouting.go:693-728 | the step for the override, whose effect RoutingLaws.ApplyOverrides states, and whether it worked |
| `DomainRouting.Manager.FindDefaultRoute` | manager/domainrouting.go:1229-1248 | the choice over the forwarding table |
| `DomainRouting.Manager.AddLoopbackRouteLocked` | manager/domainrouting.go:1303-1328 | the route for 127.0.0.1 is added or adopted, once |
| `DomainRouting.Manager.RemoveLoopbackRouteLocked` | manager/domainrouting.go:1332-1352 | it is given up, and deleted when the interface is found and the deletion works |
| `DomainRouting.Manager.ActivateTunnelLocked` | manager/domainrouting.go:605-652 | everything is put back, then the new tunnel and its default route are noted, the route for 127.0.0.1 is added if the setting asks for it, and DNS is overridden if the mode does |
| `DomainRouting.Manager.DeactivateTunnelLocked` | manager/domainrouting.go:654-668 | everything is put back, with the route for 127.0.0.1, and the tunnel forgotten |
| `DomainRouting.Manager.PickFallbackTunnel` | manager/domainrouting.go:937-955 | a started tunnel that is not excluded and is the selected one if there is one, or none exists |
| `DomainRouting.Manager.OnTunnelStarted` | manager/domainrouting.go:379-386 | the step for a started tunnel |
| `DomainRouting.Manager.OnTunnelStopped` | manager/domainrouting.go:387-395 | the step for a stopped tunnel, with its fallback |
| `DomainRouting.Manager.ApplyModeLocked` | manager/domainrouting.go:578-603 | the mode is applied to the active tunnel |
| `DomainRouting.Manager.ChangeMode` | manager/domainrouting.go:487-506 | the step for a new mode |
| `DomainRouting.Manager.ChangeRuleLists` | manager/domainrouting.go:520-539 | the step for new rule lists |
| `DomainRouting.Manager.ChangeDNSSettings` | manager/domainrouting.go:553-576 | the step for a newly selected tunnel |
| `DomainRouting.Manager.SyncManagedRouteTunnelLocked` | manager/domainrouting.go:1009-1049 | the managed tunnel is released and the target taken over, as RoutingLaws.SelectionTakesEffect and SelectionWithout spell out; when that is stored and the target is active, its host routes are deleted; and whether nothing failed |
| `DomainRouting.Manager.RemoveAllowedIPRoutes` | manager/domainrouting.go:1077-1096 | the loop deletes the route of every host address in the AllowedIPs on the tunnel's interface, whoever has set it up |
| `DomainRouting.Manager.SetExcludeLoopback` | manager/domainrouting.go:417-435 | the step for that setting |
| `DomainRouting.Manager.RestoreTunnelTableOff` | manager/domainrouting.go:1051-1061 | the stored setting becomes the given one, or the call fails and nothing changes |
| `DomainRouting.Manager.PrepareTunnelConfigForStart` | manager/domainrouting.go:984-1007 | the step for a tunnel's start, with the save of its caller |
| `RoutingLaws.ApplyOverrides` | manager/domainrouting.go:693-728 | when both calls work the tunnel's interface and the default one, when there is one, have exactly 127.0.0.1, no other interface changes, and what is saved for them is the tunnel's own servers and the ones read |
| `RoutingLaws.ApplyFails` | manager/domainrouting.go:718-726 | what each failing call leaves as it was |
| `RoutingLaws.RestoreGivesBack` | manager/domainrouting.go:730-739 | each saved interface gets exactly its saved servers back when its call works, and no other one changes |
| `RoutingLaws.FilterParts` | manager/domainrouting.go:1198-1210 | the usable servers stay in their order; 0.0.0.0 and 127.0.0.0/8 are not usable |
| `RoutingLaws.StartTakesEffect` | manager/domainrouting.go:375-386 | a tunnel that starts, is not active and is allowed by the selection becomes the active one with its interface, its servers and the best default route; in a mode other than Off, with rules and a running proxy, both interfaces point at the proxy afterwards, and otherwise nothing is overridden |
| `RoutingLaws.FallbackTakesEffect` | manager/domainrouting.go:387-395 | so does the fallback when the active tunnel stops; without one no tunnel is active |
| `RoutingLaws.SelectionSwitches` | manager/domainrouting.go:553-576 | and the fallback when another tunnel is selected than the active one; selecting that one or none leaves it active |
| `RoutingLaws.StartWithout` | manager/domainrouting.go:379-386 | any other start changes nothing, or only puts everything back |
| `RoutingLaws.ModeTakesEffect` | manager/domainrouting.go:487-603 | a new mode drops all tracked routes; with rules and a proxy that runs or can be started both interfaces point at it afterwards, and in mode Off or without rules the override is undone |
| `RoutingLaws.RulesTakeEffect` | manager/domainrouting.go:520-539 | new lists replace the old ones, and exactly the routes of the entries that can be deleted are dropped |
| `RoutingLaws.StopTakesEffect` | manager/domainrouting.go:387-395 | the active tunnel's stop puts servers and routes back and takes the route for 127.0.0.1 away; another one's changes nothing |
| `RoutingLaws.LoopbackIsKept` | manager/domainrouting.go:1303-1328 | with the setting on, a tunnel that starts has 127.0.0.1 routed to the loopback interface |
| `RoutingLaws.RepairIsExact` | manager/domainrouting.go:280-312 | the repair adds exactly the routes of the entries that have none on either interface and can be added, and afterwards every entry has one but for failures; in mode Off and in DNS-only mode it does nothing |
| `RoutingLaws.SelectionTakesEffect` | manager/domainrouting.go:1009-1049 | when the managed tunnel can be released and the target loaded: the note names the target and the setting that it had, the setting is on unless it could not be saved, which is noted exactly then, the released tunnel has its own setting again, and no other setting changes |
| `RoutingLaws.SelectionWithout` | manager/domainrouting.go:1009-1043 | what it comes to when the target is managed already, the release fails, or there is nothing to take over |
| `RoutingLaws.SwitchedOnLosesRoutes` | manager/domainrouting.go:1045-1096 | the host routes of the AllowedIPs are deleted exactly when this step has switched the setting of the active tunnel on |
| `RoutingLaws.PreparationTakesEffect` | manager/domainrouting.go:984-1007 | the start of the selected tunnel makes it the managed one with the same effect, and any other start changes nothing |
| `RoutingLaws.SelectedIsManaged` | manager/domainrouting.go:553-576 | the step for a new selection: the note and the setting follow it in a mode, and nothing stays managed without one |
| `RoutingLaws.SavedStaysOn` | manager/domainrouting.go:984-1061 | over every run without reloads and failed saves the managed tunnel is stored on |
| `RoutingLaws.ServerExceptions` | manager/domainrouting.go:605-739 | for every step, the ways in which an interface becomes an exception to what every run keeps of the servers: a restoring call that fails, a default interface that cannot be read, a tunnel's own interface, or servers chosen while it is the default one; no others |
| `RoutingLaws.ChoiceEndsExceptions` | manager/domainrouting.go:617-633 | servers chosen for any other interface than the default one end its exceptions |
| `RoutingLaws.RouteExceptions` | manager/domainrouting.go:280-395 | and the ways in which a route becomes one to what it keeps of the routes: given up because its deletion fails, adopted because the user has it and the manager needs it, or withdrawn with the AllowedIPs or as the route for 127.0.0.1; no others |
| `RoutingProofs.AddKeepsRoutes` | manager/domainrouting.go:803-885 | adding keeps: entries under their own address, on a nonzero interface that is the tunnel's or the default one; every host route of the system an untouched one of the user's, the manager's own, or given up; and every untouched one there |
| `RoutingProofs.DropKeepsRoutes` | manager/domainrouting.go:341-375 | so does dropping any entries, with any failures |
| `RoutingProofs.WithdrawKeepsRoutes` | manager/domainrouting.go:1077-1096 | so does deleting any routes, whoever has set them up |
| `RoutingProofs.UntrackedTable` | manager/domainrouting.go:752-759 | with nothing of the manager's own left the route table is the user's without the adopted and the withdrawn routes and with the given up ones |
| `RoutingProofs.SelectedLosesRoutes` | manager/domainrouting.go:1045-1046 | a running tunnel that is selected loses its own host routes, which are still missing when another selection ends with no tunnel |
| `RoutingProofs.LoopbackIsTaken` | manager/domainrouting.go:1303-1352 | a route for 127.0.0.1 that is there already is adopted, and deleted with the tunnel |
| `RoutingProofs.AdoptedIsDeleted` | manager/domainrouting.go:844-848 | a host route of the user's that an answer needs is adopted, and is gone after the tunnel stops |
| `RoutingProofs.RestoreKeepsDns` | manager/domainrouting.go:730-739 | restoring gives the user's servers back |
| `RoutingProofs.FoundKeepsDns` | manager/domainrouting.go:617-633 | a new tunnel's default servers are read while nothing is overridden |
| `RoutingProofs.ApplyKeepsDns` | manager/domainrouting.go:693-728 | applying once or again saves the user's servers, never the override |
| `RoutingProofs.ReadDecides` | manager/domainrouting.go:617-633 | from any activation to any later state with that tunnel: putting back an override gives the default interface the usable ones of its servers exactly when they could be read at the activation, and none otherwise |
| `RoutingProofs.ChoiceIsUndone` | manager/domainrouting.go:730-739 | servers chosen for the default interface while it is overridden are replaced by the saved ones |
| `RoutingProofs.SyncKeepsManaged` | manager/domainrouting.go:1009-1061 | with any failures: every other tunnel's stored setting is the user's or the one it was forgotten with, the managed one is stored off unless that failed, its own setting is remembered, and it is the target unless its release is held up |
| `RoutingProofs.PrepareKeepsManaged` | manager/domainrouting.go:984-1007 | a start keeps that |
| `RoutingProofs.SyncForgetsNone` | manager/domainrouting.go:1009-1043 | synchronizing forgets no managed tunnel |
| `RoutingProofs.StartForgets` | manager/domainrouting.go:990-999 | a start forgets the managed tunnel exactly when the started one is the target and another one is still managed |
| `RoutingProofs.OnlyHeldIsForgotten` | manager/domainrouting.go:990-999 | and only one whose release was held up |
| `RoutingProofs.ForgottenStaysOn` | manager/domainrouting.go:984-1061 | a release that fails and a start of the new target: the old tunnel's TableOff stays on and its own setting is forgotten |
| `RoutingProofs.RunKeepsForgotten` | manager/domainrouting.go:984-1061 | over every run without reloads a tunnel is forgotten with its setting on or as the user had it, and one forgotten on remains so |
| `RoutingProofs.InitialInvariant` | manager/domainrouting.go:220-247 | the invariant holds at start-up with any note of a managed tunnel that is right |
| `RoutingProofs.NoNote` | manager/domainrouting.go:887-922 | as no note is when the settings are the user's |
| `RoutingProofs.StepKeepsInvariant` | manager/domainrouting.go:280-739 | every locked step, every reload of the policy and every change of routes or servers from outside keeps the invariant on routes, DNS and the managed tunnel |
| `RoutingProofs.RunKeepsInvariant` | manager/domainrouting.go:280-1061 | so does every run of steps from every state that has it, whatever the system answers |
| `RoutingProofs.EverythingPutBack` | manager/domainrouting.go:654-739 | over every run with any failures, from every state with the invariant: whenever no tunnel is active the host routes are the user's without exactly the adopted and the withdrawn ones and with those that were given up, nothing is overridden, and every interface that was never a tunnel's, and was read, restored and not chosen anew whenever it was the default one, has the user's servers |
| `RoutingProofs.SettingsPutBack` | manager/domainrouting.go:984-1061 | over every run: whenever no tunnel is managed, as in mode Off with no release held up, a stored setting differs from the user's exactly when its tunnel was forgotten with another one; without reloads that is one forgotten on that the user had off |
| `DnsProxy.HandleDNSQuery` | manager/domainrouting_dnsproxy.go:103-253 | the reply and the routes of a query along its decision path, with any steps of other threads wherever the lock is free; DnsProxy.QueryAlone and WhatIsAnswered say what that is |
| `DnsProxy.QueryAlone` | manager/domainrouting_dnsproxy.go:237-252 | for a query alone with a target, in relaxed or strict mode with a tunnel active: which addresses have an entry afterwards, with which interface, next hop, metric and expiry, and which routes the system has, for every address; and the answer is delivered, but for strict mode with a new address that could not be added |
| `DnsProxy.NamedIsRouted` | manager/domainrouting_dnsproxy.go:268-280 | so every address in the answer whose route can be added has an entry for at least five minutes and a route, in relaxed mode too |
| `DnsProxy.OnlyStrictFails` | manager/domainrouting_dnsproxy.go:226-253 | whatever other threads do: in mode Off, in DNS-only mode, without a target or a tunnel the query changes nothing, and outside strict mode the upstream answer is always delivered as it came |
| `DnsProxy.WhatIsAnswered` | manager/domainrouting_dnsproxy.go:112-197 | which reply a query gets without upstream, in both directions: no such name exactly for a blocked one, a local address exactly for its own kind or any, nothing for IPv6 while it is off |
| `DnsProxy.NamesAlike` | manager/domainrouting_dnsproxy.go:123 | the case of a name and a dot at its end do not count |
| `DnsProxy.ApplyRoutesFromResponse` | manager/domainrouting_dnsproxy.go:268-280 | every A record is routed in order, each in its own locked step, and a failure of any counts |
| `DnsProxy.WhatIsAsked` | manager/domainrouting_dnsproxy.go:127-198 | exactly which queries go upstream: never a blocked name, never IPv6 while it is off, never a local name |
| `DnsProxy.StrictInterleaved` | manager/domainrouting_dnsproxy.go:237-252 | in strict mode, whatever other threads do meanwhile, an answer reaches the client exactly when no tunnel was active or each of its IPv4 addresses had an entry or could be added in its own step; and then each has been tracked for five minutes at least, unless routing had ended by then |
| `DnsProxy.StrictSound` | manager/domainrouting_dnsproxy.go:237-252 | for a query alone, an answer that reaches the client in strict mode has a tracked entry for each of its IPv4 addresses that lives five minutes; the system has a route for all of them exactly when each one whose route had gone missing could get it back |
| `DnsProxy.UnroutedIsDelivered` | manager/domainrouting.go:831-837 | an answer for a tracked address whose route is gone and cannot be added again is delivered in strict mode without a route |
| `DnsProxy.EntriesNeverMove` | manager/domainrouting.go:824-838 | a routed address is on the interface of its target exactly when it was not tracked before or was there already |
| `DnsProxy.CleanupIsExact` | manager/domainrouting.go:341-355 | the cleanup drops exactly what has expired, and removes exactly the routes of that which can be deleted |

## Left out

* `highlightASecConfig` and its warnings about junk-packet parameters, and the
  hexadecimal branch of `isValidUint`, which no caller selects.
* Pointers into the buffer are offsets; the parent pointer of a span is gone.
* The ring reader's copy of the shared memory is taken as one step, although
  writers can go on during it; byte writes of a line are free in their order but
  the two stamps are single stores. Trimming there is that of ASCII blanks.
* Lower-casing is exact where the result is an ASCII letter; case folding of
  other letters in names of domains and tunnels is not modelled.
* The text of the firewall script and its quoting: a group is the set of ranges
  it blocks, and a script that returns without an error has done what it says.
  Group names differ by more than case.
* The configuration file of either manager, its parsing and its paths: saving
  is an outcome, and a reload is a step with an arbitrary policy and an
  arbitrary note of the managed tunnel.
* Other edits of the stored tunnels, and their creation and removal.
* Routes other than host routes. The user's routes are all that others than the
  manager have set up, such as those of a tunnel's own AllowedIPs.
- RoutingProofs.RunKeepsInvariant: makes no claim about the servers of an
  interface that has been a tunnel's; those come from the tunnel's own settings.
* DNS search lists and IPv6 servers. A `SetDNS` that fails is taken to change
  nothing.
* Other saves of a tunnel's settings between the load and the save of its start.
* Upstream selection, sockets and the exchange itself: a reply is an arbitrary
  list of records or a failure. The query log.
- DnsProxy.StrictInterleaved: speaks of the moment of each address's own step; a
  later step of another thread can drop the entry before the client connects.
* `DisableIPv6FromConfig`, the DNS upstream list, the block list file and the
  message-by-message pipe protocol: case analysis without further claims.
* ed25519 is an uninterpreted predicate, and the key's text is a parameter.
* AllowedIPs are compared as values; parsing and printing them belong to a
  package that is not part of this model.
