# Verification of wgxdp's policy enforcement path

wgxdp keeps one policy in three places: SQLite tables (peers, device codes, firewall rules), the
peer table of a WireGuard device, and an eBPF map that an XDP program consults for each packet.
The tables are the truth; the other two are kept up by the HTTP handlers and rebuilt at startup.
This project models all of it in Dafny, from packet bytes to the device authorization protocol,
and proves how the pieces fit together. `dafny verify dfyconfig.toml` checks everything.

## How the model is built

- **Words, DottedQuad, NetIP** - 32-bit words as ranged integers with bit-by-bit `&` and `|`,
  little- and big-endian loads; printing and scanning of IPv4 text; `net.ParseIP`.
- **Subnets, RuleKeys, Filter, Allocator** - the subnet as allocator, `firewall.New` and XDP
  program read it; the 12-byte map key; the XDP program; the first-fit address search.
- **Tables, Statements, Kernel** - every SQL statement, and every write to the two kernel tables,
  as a function on values, and what each statement means for the constraints and for later answers.
  A query's rows come in no fixed order, so restoring takes any enumeration.
- **Handlers** - each handler twice: `Effect` is the whole handler, `Step` one atomic SQL
  statement, kernel call or clock reading of it. `WholeHandler` proves that the steps of a handler
  run alone are exactly its effect, so that runs of whole handlers, crash points and interleavings
  are about one definition.
- **Answers** - for every request, each way to fail and to succeed, and exactly what it leaves
  behind, said of the request, the stored rows and the clock alone.
- **Database, FirewallService, WireguardDevice, Server** - the source's objects as classes whose
  methods and loops are proved against those functions.
- **CrashPoints, Crash** - a handler stops between any two of its steps: what it has done to the
  tables by then, and what the restart makes of them.
- **RuleSync, PeerSync, Runs, Enforcement** - the copies against the tables over runs of whole
  handlers, restarts and handlers stopped half-way by a restart, and from there to packets.
- **Permanence, Instances** - rows that nothing removes; for each property that holds only under a
  condition, a run that violates it.
- **Races, Polling, Decisions** - handlers interleaved at their steps, with a history; what a client
  sees that polls, and what the answers to approvals and denials are worth.
- **Cleaner** - a simulation, step by step, between a run with the background cleaner and one without.
- **Client** - the polling loop of `wgxdp join`, alone and together with the server.

Assumptions: a little-endian host (the Go side always loads little-endian words, the C side loads
natively); a clock that never goes back; device codes, user codes and tokens never drawn twice
(`Fresh`, `Plausible`). The values of IPv6 text and the decoding of public keys are unspecified
functions (`Env`), so every result holds for whatever they do. `Assign` follows WireGuard's rule
that an allowed network belongs to one peer at a time.

## What was found

Properties that a reader would expect and that the code has only under a condition. Where it says
"exactly", both directions are proved.

- The allocator stays inside its subnet exactly when base + 2 does not wrap around
  (`ConfinedIffNoWrap`); in 255.255.255.254/31 an empty table gets 0.0.0.0 (`LastSlash31Wraps`).
- DeleteRule and DeletePeer keep map and table in agreement exactly when no remaining row shares a
  deleted row's key (`DropRuleKeeps`, `DropPeerKeeps`): the UNIQUE constraint is on text, while
  ports are truncated to 16 bits and an address has several spellings. `AliasedDelete` is the case
  of ports 80 and 65616, `SpellingLosesKey` that of an IPv4-mapped spelling of a peer's address.
- CreateRule keeps agreement exactly when the map has room (`CreateRuleKeeps`), and a restart
  reaches it exactly when at most 1024 distinct keys exist (`RestoreAgreesIff`). `FullMap` is the
  run that creates 1025 rules.
- A rule that finds the map full, or that has no key because IPv6 is involved, is stored although
  CreateRule answers with an error; the answer is the rule exactly when the map took its key
  (`StoredThoughRefused`).
- Enrolling a key that the device already has breaks agreement (`EnrolKeeps`), and deleting one of
  two rows with one decoded key disconnects the other until a restart (`SharedKeyIsLost`);
  `SharedKeyIsReached` is the run.
- A stored rule can be deleted by DeleteRule exactly when it has a key or an address that does not
  parse (`DropRuleSucceedsIff`); a comment there says that rules with unusable addresses are skipped,
  but valid IPv6 text is not. Such a rule goes only with the peer that it is from
  (`RuleIsRemovableIff`), and if no peer can have its source address it stays for good
  (`UnmappableIsPermanent`; `UnmappableIsReached` is a run of one request).
- A stored peer can be deleted exactly when its public key decodes (`DropPeerSucceedsIff`,
  `PeerIsRemovableIff`); a join with any other text as its key is answered with an error, but leaves
  its row and takes its address for good (`UndecodableIsPermanent`, `UndecodableIsReached`).
- A token that a poll returns can be consumed at the same clock reading exactly if that is not the
  second of the code's expiry (`PolledTokenIsRedeemableIff`, `AtTheSecondOfExpiry`).
- POST /device/verify answers "denied" without looking at the affected rows. Nothing running in
  between, the answer is true (`AnswerIsTrueAlone`); otherwise the code changes exactly if it is
  still pending at the UPDATE (`VerdictsUnderRaces`). In `DeniedThoughApproved` two posts race, and
  one is answered "denied" although the code is approved and its token can be consumed.

## Model

| member | source | states |
|---|---|---|
| DottedQuad.ParseIffPrinted | firewall/service.go:107-123 | IPv4 text is accepted with some address exactly when it is that address in canonical dotted-quad form |
| DottedQuad.PrintInjective | internal/database.go:205-210 | the string-keyed used-set and the UNIQUE text columns decide exactly address equality |
| NetIP.ParseIPOfPrint | firewall/service.go:107-123 | a printed address goes to the IPv4 parser and gives its own four bytes back |
| NetIP.ParseIPMeans | internal/handlers_rules.go:56-63 | text is rejected iff it is dotted but no printed address, has a colon but is no IPv6 address, or has neither first; a printed or mapped address gives its own four bytes |
| Subnets.BroadcastIsLast | internal/database.go:196-202 | the bitwise broadcast address is the last address of the CIDR block, for every prefix |
| Subnets.MaskEquivalence | firewall/c/program.c:45-47 | the masked test on little-endian words holds exactly for sources outside the CIDR block, for all prefixes and addresses, with or without the zero-mask guard |
| RuleKeys.EncodeInjective | firewall/service.go:24-32 | the twelve key bytes determine every field of the key |
| RuleKeys.StoredKeyBytes | firewall/service.go:125-130 | the stored key is both addresses in network order, the low and the high byte of the port, the protocol and a zero |
| Filter.KeyAgreement | firewall/c/program.c:56-67 | the key bytes the program looks up equal those getRuleKey stores iff addresses, 16-bit port and protocol match |
| Filter.RuleKeyInjective | firewall/service.go:106-132 | getRuleKey separates IPv4 rules exactly up to the truncation of the port |
| Filter.PacketKeyBytes | firewall/c/program.c:61-67 | the key looked up is the packet's address bytes, its port bytes swapped, the protocol and a zero |
| Filter.VerdictOnEveryPacket | firewall/c/program.c:30-74 | the complete verdict over all byte strings and maps: malformed or truncated drops, outside the subnet or neither TCP nor UDP passes, and otherwise the entry under the packet's key decides |
| Filter.NoSubnetFiltersAll | firewall/c/program.c:26-27 | with both variables left zero, packets from every source are filtered |
| Filter.VerdictIsLocal | firewall/c/program.c:30-74 | the verdict depends only on length, header length, protocol, addresses and destination-port bytes; every byte read is in bounds |
| Allocator.AllocateLeast | internal/database.go:196-215 | the least unused address of [base+2, broadcast), or failure exactly when that range is used up |
| Allocator.ConfinedIffNoWrap | internal/database.go:196-202 | allocation stays in the subnet for every table iff base + 2 does not wrap |
| Allocator.LastSlash31Wraps | internal/database.go:196-213 | in 255.255.255.254/31 an empty table is given 0.0.0.0 |
| Allocator.AllocatedIsFiltered | firewall/c/program.c:45-47 | an allocated address is never outside the subnet for the XDP program |
| Allocator.CapacityOfPrefix | internal/database.go:196-204 | for prefixes up to 30 there are exactly 2^(32-p) - 3 allocatable addresses and no wrap-around |
| Allocator.Pigeonhole | internal/database.go:204-213 | with fewer strings in use than allocatable addresses an address is found, whatever the strings are |
| Allocator.FullIffAtCapacity | internal/database.go:204-215 | when all strings in use were allocated, allocation fails exactly at capacity |
| Handlers.PurgeAll | internal/handlers_peers.go:114-127 | the eBPF clean-up loop removes exactly the keys of the rows it was given |
| Handlers.WholeHandler | internal/handlers_peers.go:82-226 | every handler's atomic steps, run alone, have the whole handler's effect and response |
| CrashPoints.TablesAtPoint | internal/handlers_peers.go:82-226 | at any step of any handler the tables are the old or the final ones, except that a join may have consumed its token and a DeletePeer that will succeed may have deleted the peer's rules |
| RuleSync.CreateRuleKeeps | internal/handlers_rules.go:52-79 | CreateRule keeps every map entry justified, and keeps agreement iff the row has no key, its key is present, or the map has room |
| RuleSync.DropRuleKeeps | internal/handlers_rules.go:97-121 | DeleteRule keeps every entry justified, changes nothing on failure, and keeps agreement iff no other row has the deleted key |
| RuleSync.DropPeerKeeps | internal/handlers_peers.go:108-125 | the same for DeletePeer and all rows of the peer's address |
| RuleSync.DropRuleSucceedsIff | internal/handlers_rules.go:107-121 | DeleteRule succeeds on a stored rule iff it has a key or an address that does not parse; otherwise nothing changes |
| RuleSync.StoredThoughRefused | internal/handlers_rules.go:68-79 | every acceptable new rule (see Answers.CreateRuleAnswer) is stored; the answer is the rule iff it has a key and the map has room, and otherwise an error |
| RuleSync.EffectKeepsSound | internal/handlers_rules.go:68-121 | whatever is requested, every map entry is afterwards the key of some row |
| RuleSync.KeyOfRow | firewall/service.go:106-132 | a row has a key iff both texts are IPv4, also as mapped IPv6, and these are its twelve bytes for any port and protocol |
| RuleSync.RestoreAgreesIff | cmd/wgxdp-server/main.go:97-108 | in any row order the restored map is justified, and agrees with the table iff at most 1024 distinct keys exist |
| RuleSync.AgreementIsUnique | cmd/wgxdp-server/main.go:97-108 | a table determines the map that agrees with it |
| PeerSync.SyncedAdd | wireguard/device.go:120-151 | adding a row and its peer keeps agreement iff the key does not decode or is new to the device |
| PeerSync.SyncedRemove | wireguard/device.go:154-176 | removing a row and its peer keeps agreement |
| PeerSync.EnrolKeeps | internal/handlers_peers.go:182-209 | an enrolment takes a fresh allocatable address and keeps agreement iff the key does not decode or is new to the device |
| PeerSync.JoinKeeps | internal/handlers_peers.go:162-209 | the same for the whole join, including every way it fails |
| PeerSync.DropPeerKeepsDevice | internal/handlers_peers.go:89-125 | DeletePeer keeps agreement of the device, removes exactly one row on success and nothing on failure |
| PeerSync.DropPeerSucceedsIff | internal/handlers_peers.go:99-127 | DeletePeer succeeds on a stored peer iff its public key decodes; otherwise nothing changes |
| PeerSync.RestoreDeviceIff | cmd/wgxdp-server/main.go:78-90 | in any row order the restored device agrees with the table iff decoded public keys are distinct |
| PeerSync.DeviceIsUnique | cmd/wgxdp-server/main.go:78-90 | a table determines the device that agrees with it |
| PeerSync.SharedKeyIsLost | internal/database.go:59-65 | deleting one of two rows with one decoded key leaves the device without it, though any restart would restore it |
| Runs.EveryRunIsSound | internal/handlers_rules.go:34-121 | in every run with arbitrary requests, restarts, and restarts in the middle of a handler: UNIQUE constraints, distinct allocatable addresses, and only justified map entries |
| Runs.AllocationInRuns | internal/database.go:163-216 | in reachable states allocation fails iff the number of peers is the capacity |
| Runs.RoomForPeers | internal/database.go:163-216 | for prefixes up to 30 a new peer gets an address while fewer than 2^(32-p) - 3 exist |
| Runs.EnrolledIsFiltered | firewall/c/program.c:45-47 | every enrolled peer's address is in the subnet for the XDP program |
| Runs.RuleMapFollowsTable | internal/handlers_rules.go:68-121 | map and table agree in every such run in which rule keys stay distinct and fit |
| Runs.DeviceFollowsTable | internal/handlers_peers.go:99-209 | device and table agree in every such run in which decoded public keys stay distinct |
| Runs.AgreedIsRestored | cmd/wgxdp-server/main.go:78-108 | an agreed state is exactly what startup rebuilds from its tables, in any row order |
| Runs.RecoveryRefinement | cmd/wgxdp-server/main.go:78-108 | in every such run the live device and map are what startup would rebuild |
| Runs.InitialIsAgreed | cmd/wgxdp-server/main.go:44-108 | an empty server satisfies every assumption of the run theorems |
| Runs.UserCodesStayUnique | internal/database.go:66-76 | no handler makes a user code ambiguous |
| Enforcement.SameKeyIsSameRule | internal/database.go:87-95 | among canonical rules the UNIQUE constraint on text is one on keys |
| Enforcement.CanonicalRunsAgree | internal/handlers_rules.go:34-121 | with canonical rules, at most 1024 at a time, map and table agree in every run |
| Enforcement.AgreementEnforces | firewall/c/program.c:36-74 | for any bytes, an agreeing map passes a packet iff it may pass by the rules table |
| Enforcement.EndToEnd | firewall/c/program.c:30-74 | in every reachable state and for all byte strings, PASS iff the header is sound and the source is outside the subnet, or the protocol is neither TCP nor UDP, or the port is there and the table holds source, destination, port and protocol |
| Enforcement.FirstRuleOpens | internal/handlers_rules.go:52-79 | on an empty server a packet from the subnet is dropped, and passes once its own rule has been created, for TCP also without naming the protocol |
| Enforcement.DropPeerIsClean | internal/handlers_peers.go:89-127 | a successful DeletePeer leaves no row and no key from the address and every other row, key and peer, including rules towards it |
| Enforcement.OldRulesAreOld | internal/database.go:337-346 | rules never change and a rule that appears has an id above all earlier ones |
| Enforcement.SafeReuse | internal/handlers_peers.go:108-125 | after DeletePeer a packet from the address passes only by a rule created after the deletion |
| Enforcement.PortsAlias | firewall/service.go:128 | ports that differ by 65536 have one key |
| Enforcement.AliasedDelete | internal/handlers_rules.go:107-121 | with rules for ports 80 and 65616, deleting the first leaves the second without its entry |
| Permanence.NamesNotEmpty | internal/handlers_peers.go:189-193 | in every run no peer has an empty name, which DeletePeer would refuse |
| Permanence.PeerIsRemovableIff | internal/handlers_peers.go:99-127 | in reachable states some request removes a stored peer iff its public key decodes |
| Permanence.UndecodableIsPermanent | internal/handlers_peers.go:99-106 | a peer row whose key does not decode is kept unchanged by every later run, and DeletePeer never succeeds on it |
| Permanence.RuleIsRemovableIff | internal/handlers_rules.go:107-121 | some request removes a stored rule iff DeleteRule can, or DeletePeer of a removable peer with its source address |
| Permanence.UnmappableIsPermanent | internal/handlers_rules.go:107-116 | a valid rule without a key, from an address that no peer can have, is kept unchanged by every later run, and DeleteRule always fails on it |
| Instances.UndecodableIsReached | internal/handlers_peers.go:196-209 | issuing, approving and redeeming one code with a key that does not decode leaves such a peer, though the join is answered with an error |
| Instances.UnmappableIsReached | internal/handlers_rules.go:68-79 | one request for a rule between IPv6 addresses leaves such a rule, though it is answered with an error |
| Instances.SpellingLosesKey | internal/handlers_peers.go:108-118 | from a reachable agreeing state, deleting a peer leaves a rule that spells its address as IPv4-mapped IPv6 without its entry |
| Instances.SharedKeyIsReached | internal/database.go:59-65 | two enrolments with one key end in a state without agreement, in which deleting one peer disconnects the other until a restart |
| Instances.FullMap | firewall/c/program.c:17-22 | after 1024 rules, CreateRule stores the next one with an error, and neither the live map nor that of any restart agrees with the table |
| Crash.RestartAgreesIff | cmd/wgxdp-server/main.go:50-108 | startup reaches agreement iff decoded keys are distinct and rule keys fit, whatever was live |
| Crash.RestartTwice | cmd/wgxdp-server/main.go:78-108 | restoring again, in any other row order, changes nothing |
| Crash.CrashHeals | cmd/wgxdp-server/main.go:78-108 | a crash between any two steps of any handler plus a restart keeps the invariant and restores agreement, iff the tables left behind have distinct decoded keys and rule keys that fit; they do if the tables before and after the request do |
| Crash.RuleHandlersAreAtomic | internal/handlers_rules.go:68-121 | a crash anywhere in CreateRule or DeleteRule plus a restart gives the state before or after the request |
| Crash.JoinCrashes | internal/handlers_peers.go:172-209 | a crash anywhere in a join plus a restart gives the state before, that state without the token, or the state after |
| Crash.DropPeerCanBeRetried | internal/handlers_peers.go:89-127 | after a crash anywhere in any DeletePeer and a restart, device and map agree with the tables, and either the request is complete or repeating it completes it to the same state |
| Races.NextKeepsWorld | internal/database.go:291-333 | every move of the interleaved system keeps the invariant that ties tables, handlers and history together |
| Races.EveryWorldIsOk | internal/database.go:127-333 | the invariant holds in every interleaving, with crashes and clock ticks |
| Races.AddressesUnderRaces | internal/handlers_peers.go:182-200 | in every interleaving peers have distinct allocatable addresses and never outnumber them |
| Races.SingleUse | internal/database.go:321-333 | in every interleaving peers <= joins <= consumptions <= approvals, by an injection into approved codes, none of which was denied |
| Polling.IssuedRow | internal/database.go:297-333 | over any interleaving an issued code's row changes only out of pending, keeps its expiry, and once gone stays gone |
| Polling.PollIsBracketed | internal/handlers_device.go:109-121 | a poll's response comes from a row and a clock reading made one after the other during the request |
| Polling.PollTraceLanguage | internal/handlers_device.go:117-139 | the responses to successive polls are pending*, then denied* or approved* with one token, then expired* |
| Polling.ClientSeesLanguage | internal/handlers_device.go:85-140 | the same for interleaved handlers of a client that waits for each response |
| Polling.AnsweredTokenIsApproved | internal/handlers_device.go:130-135 | a token in a response is the one with which that code was approved, and the code was not denied |
| Polling.ResponseTellsHistory | internal/handlers_device.go:117-139 | in every interleaving a poll says exactly what had been decided about its code when the row was read: denied, approved with this token, or neither; "expired" iff the code was gone or past its time |
| Decisions.AnswerIsTrueAlone | internal/handlers_device.go:208-236 | with nothing in between, a verdict is given iff the code is unexpired and pending, and then its row is approved with the token or denied; otherwise nothing changes |
| Decisions.VerdictsUnderRaces | internal/handlers_device.go:222-236 | in every interleaving a verdict comes from one UPDATE during the request; "approved" is true then, "denied" changes the code iff it was still pending, and an approval that comes too late is an error and changes nothing |
| Decisions.DeniedThoughApproved | internal/database.go:313-319 | two interleaved posts end with an answer "denied" for a code that is approved and whose token can be consumed |
| Answers.NewCodeAnswer | internal/handlers_device.go:57-81 | a code is issued, pending for 600 seconds, iff neither of its texts is stored |
| Answers.PollAnswer | internal/handlers_device.go:109-139 | a poll changes nothing and is told the status of its own live code |
| Answers.ViewAnswer | internal/handlers_device.go:152-176 | the page shows the user code's own row with its status and expiry; empty, unknown and expired codes are refused |
| Answers.VerifyAnswer | internal/handlers_device.go:195-245 | which refusal each condition gets, and that otherwise exactly the user code's row is decided |
| Answers.JoinAnswer | internal/handlers_peers.go:162-226 | every way a join fails, what each leaves behind, and what a success gives: the least free address, the given name or "peer-" and the address, the row, and the device with that address for that key only |
| Answers.JoinSucceedsIff | internal/handlers_peers.go:162-226 | a join succeeds iff token and key are given, the key decodes, the token can be redeemed, an address is free and the name is not taken |
| Answers.DropPeerAnswer | internal/handlers_peers.go:82-128 | every way DeletePeer fails, and exactly what a success takes from tables, device and map |
| Answers.DropRuleAnswer | internal/handlers_rules.go:89-124 | every way DeleteRule fails, and exactly what a success takes from table and map |
| Answers.CreateRuleAnswer | internal/handlers_rules.go:52-85 | a malformed request is refused with nothing stored; a new rule is stored, as TCP if no protocol is named, and answered by whether the map took its key |
| Answers.PrintedRule | internal/handlers_rules.go:52-66 | between printed addresses only a missing port is malformed, and the key is their bytes, the port's low 16 bits and the protocol's low 8 |
| Answers.AddPeerAnswer | wireguard/device.go:120-151 | a peer is configured iff its key decodes and its text is an address; then it alone has the IPv4 address, or the IPv6 network of the text's first 32 bits |
| Answers.CleanAnswer | internal/database.go:432-435 | the cleaner leaves exactly the codes whose time has not passed |
| Cleaner.PointsSimulate | internal/database.go:432-435 | stopped after any number of steps, a handler has done the same on a table and on a cleaned copy of it |
| Cleaner.RequestSimulates | internal/database.go:432-435 | every request is answered alike on a table and on a cleaned copy of it, and the two stay related |
| Cleaner.CleanerIsTransparent | internal/server.go:67-75 | wherever the cleaner runs, also with restarts and handlers stopped half-way, all responses are those of the run without it |
| Cleaner.CollisionShowsCleaner | internal/database.go:66-76 | without fresh user codes the cleaner does show: it turns a failing insertion into a success |
| Cleaner.PolledTokenIsRedeemableIff | internal/database.go:323-327 | a token returned by a poll is consumable at the same reading iff that is not the second of expiry, and later iff that is before it |
| Cleaner.AtTheSecondOfExpiry | internal/database.go:323-327 | at expires_at itself a code is kept and its token returned, but not consumable; a second later it is cleaned and expired |
| Client.RunJoin | cmd/wgxdp/main.go:116-143 | at most ceil(expires_in / interval) polls, ending with the first decisive reply or at the deadline; a non-empty token leads to /join, and each error reply and no reply to its own failure |
| Client.JoinsWithOwnToken | cmd/wgxdp/main.go:116-145 | the loop run against the interleaved server: a client goes on to /join after at most 120 polls, all but the last pending, only with the token with which its own device code was approved, and never for a denied code |
| Client.ClientLearnsDecision | cmd/wgxdp/main.go:116-145 | the other half: with its last reply delivered the client ends as the history of its code says, with the approved token, told of the denial or expiry, or at the deadline |
| Database.Rows | internal/database.go:151-158 | iterating over a query collects every row exactly once |
| Statements.FirstDecisionStands | internal/database.go:297-317 | of an approval and a denial of one user code the first stands, in either order |
| Database.DB.AddPeer | internal/database.go:128-134 | succeeds iff the name is new and the addresses stay unique, keeps every row, and is undone by deleting the name |
| Database.DB.RemovePeer | internal/database.go:137-140 | frees the name and the address: inserting the row again gives the old tables back |
| Database.DB.GetAllPeers | internal/database.go:143-159 | every peer exactly once |
| Database.DB.NextAvailableIP | internal/database.go:163-216 | both loops compute the least free address of AllocateLeast, without overflow of the uint32 candidate |
| Database.DB.CreateDeviceCode | internal/database.go:220-253 | keeps user codes unique, succeeds iff both codes are new; both lookups then give the new row, whose polls are pending for 600 seconds and expired afterwards |
| Database.DB.GetDeviceCodeByUserCode | internal/database.go:257-270 | the only row with the user code, if any |
| Database.DB.ApproveDeviceCode | internal/database.go:291-310 | with unique user codes it succeeds iff exactly one pending row was approved; nothing stays pending under the code, and the token is consumable until the expiry |
| Database.DB.DenyDeviceCode | internal/database.go:313-319 | with unique user codes changes exactly one row if one is pending and none otherwise; nothing stays pending under the code, and which tokens can be consumed when does not change |
| Database.DB.ConsumeAccessToken | internal/database.go:323-333 | the token cannot be consumed again now or later, other tokens are unaffected, and with distinct tokens it succeeds iff exactly one code was removed |
| Database.DB.AddRule | internal/database.go:337-346 | succeeds iff the rules stay unique, under an id above all others, and is undone by deleting that id |
| Database.DB.RemoveRulesForPeer | internal/database.go:390-414 | returns each row of the address once and deletes exactly those |
| Database.DB.CleanExpiredDeviceCodes | internal/database.go:432-435 | no expired code is left, unexpired ones stay, and from then on every poll and every consumption is answered as without the cleaning |
| FirewallService.Firewall.AddPeerRule | firewall/service.go:83-92 | the rule's key is in the map afterwards, unless the text has no key or a new key finds the map full |
| FirewallService.Firewall.RemovePeerRule | firewall/service.go:95-104 | the rule's key is gone afterwards, unless the text has no key |
| WireguardDevice.Device.AddPeer | wireguard/device.go:120-151 | the decoded key has exactly the network of the given IPv4 or IPv6 text with /32, taken from any other peer, unless key or text do not parse |
| WireguardDevice.Device.RemovePeer | wireguard/device.go:154-176 | the decoded key is gone, unless it does not parse |
| Server.Server.DeviceCodeHandler | internal/handlers_device.go:57-81 | state and response are the handler's effect |
| Server.Server.DeviceTokenHandler | internal/handlers_device.go:85-140 | nothing changes and the response follows row and clock |
| Server.Server.DeviceVerifyGet | internal/handlers_device.go:145-177 | nothing changes and the response follows row and clock |
| Server.Server.DeviceVerifyPost | internal/handlers_device.go:184-246 | state and response are the handler's effect |
| Server.Server.JoinHandler | internal/handlers_peers.go:132-226 | state and response are the handler's effect, on every error path |
| Server.Server.DeletePeer | internal/handlers_peers.go:82-128 | the clean-up loop, over the rows in any order, gives the handler's effect |
| Server.Server.CreateRule | internal/handlers_rules.go:34-85 | state and response are the handler's effect |
| Server.Server.DeleteRule | internal/handlers_rules.go:89-124 | state and response are the handler's effect |
| Server.RestoreDevice | cmd/wgxdp-server/main.go:78-90 | the loop over the peers gives the restored device for the order in which the rows came |
| Server.RestoreMap | cmd/wgxdp-server/main.go:97-108 | the loop over the rules gives the restored map for the order in which the rows came |
| Server.Start | cmd/wgxdp-server/main.go:44-116 | startup leaves the tables alone and serves on a restored device and map |

## Left out

- HTTP and JSON plumbing, routing, authentication middleware, static files, the web UI: requests
  and responses are typed values; the acting user's name, stored but never read, is dropped.
- Interleavings of rule creation and deletion against the map: the handlers take no lock and the
  code gives no guarantee there, so map and device agreement is proved for whole handlers and crash
  points, while single-statement properties are proved over all interleavings.
- Kernel faults other than a full map and an absent key, including `apply` removing the link on
  error, and SQLite faults other than failing UNIQUE constraints.
- The syntax of IPv6 text, IPv4-mapped subnets and big-endian hosts.
- FirewallService.Firewall.constructor: requires that the subnet is not IPv6, for which the source
  stops with a panic.
- Client.RunJoin: requires a positive interval, as the server sends 5 seconds; time is counted in
  one unit for clock, interval and lifetime.
- Servers without a device or firewall, which only the repository's tests set up.
- Creation times, which nothing reads; the autoincrement ids of peers and device codes, which
  nothing reads either.
- `generateUserCode` and `maskFromCIDR`: random characters and netmask text are not read by any
  handler, rule or packet, and codes enter the model as fresh strings.
- `GetPeerStatuses`, `ListPeers` and `ListRules`: they only render rows and kernel counters as JSON,
  and nothing depends on their output.
