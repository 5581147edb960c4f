# Verified model of the presence-unlock daemon and its tools

This project models, in Dafny, the logic of a presence-based unlock system: a daemon listens for
Bluetooth LE advertisements of enrolled devices, keeps a small evidence log per device, and answers a
PAM module and status clients with `ALLOW` or `DENY <reason>`; command-line tools edit configuration,
menu and lock-screen files. It proves what those parts promise, over all inputs, runs and interleavings.

`dafny verify dfyconfig.toml` checks everything.

## How the files fit together

| file | what it holds |
|---|---|
| `Prelude`, `Text`, `Numerals` | options and results, splitting and joining text, decimal numbers |
| `Addresses`, `Continuity`, `Advertisements` | device addresses, the TLV decoder, identities, profiles, field needs |
| `Evidence`, `EvidenceProperties` | a device's evidence: what a history means, the incremental log, why they agree, consequences |
| `Quorum`, `Presence` | combining devices; the mutable `Eligibility` and `Fleet` with ghost histories |
| `Config`, `FleetProperties`, `Scanner` | validation; what an Allow proves; the scan loop's shortcuts |
| `AtomicUpdate`, `Startup`, `LockScreen` | the three concurrent protocols as step systems |
| `Wire`, `PamReply` | the control protocol's printers, parsers and readers |
| `MenuLexer`, `MenuEdit`, `MenuRoundTrip`, `MenuRows` | the JSONC menu edit and its removal, what they do together, and the rows they place |
| `Slugs`, `DeviceIds`, `DeviceTables` | ids for new devices, and the document edit that writes them |

The stateful code is modelled with classes and loops: `Eligibility` and `Fleet` update their fields in
place, each with a ghost history of everything they were ever told, and their `Valid` says that the
fields are what that history leads to. Their decisions are then equated with a specification that never
prunes anything, and everything else is proved of that specification.

## Where the code and its documentation part

- `parse_address` documents six pairs of hex digits; `u8::from_str_radix` also takes a sign, so `+A` is an
  octet. `AcceptsTheDocumentedFormAndPlusSigns` shows that this is the whole difference.
- The sample window is documented as applied when the decision is made. `status` reads the clock before
  it takes the fleet's lock, so a decision can carry a time before the latest sighting, and that sighting
  may already have dropped samples. `ClockOnlyRefuses` shows that this can only refuse, and
  `DocumentedUnlessExpiredAhead` exactly when it does not matter.
- Identities are checked to be distinct so that one device cannot count twice. Only keys and addresses
  are compared: `OneAdvertisementTwoDevices` gives the exact condition under which one advertisement is
  taken for two devices, `OneAdvertisementTwoDevicesExactly` decides it from the criteria,
  `OneAdvertisementSatisfiesAll` an accepted file that asks for all of two devices
  and is satisfied by one advertisement, and `AtMostOneDevicePerAdvertisement` the case where it cannot be.
- Status rows separate fields by blanks, and configuration accepts any id (`AnyIdIsAccepted`). A client
  reads the report that was sent exactly when every id is one token (`StatusRoundTrip`), and a row by itself
  exactly when its own id is (`RowRoundTrip`). With a newline in an id the response can be, character for
  character, that of two other devices (`AnIdCanForgeRows`). Ids the tools derive are always tokens
  (`DerivedIdIsToken`).
- Enrolling something new is documented never to replace something enrolled. The id is derived from one
  reading of the file, outside the update lock, and a file that does not read counts as one without
  devices; the table is written in another. Every table is kept exactly when none carries the id at the time
  of writing (`EveryTableIsKeptExactly`). `UnreadableFileLosesADevice` and `SecondWriterReplacesTheFirst`
  are the two ways in which one can.
- Criteria are rejected early so that a written file resolves; a blank name prefix is not among what is
  rejected there (`AcceptedCriteriaResolve`), only the validation of the finished file turns it away.
- Re-enrolling is documented as a full replacement. `sample_window_ms` is not among the keys it owns;
  `ReplacementIsFullUnlessForeignKeys` says exactly when the replacement is full.
- Removing the menu block is meant to restore the file, and installing twice to be installing once.
  `RemovalUndoesEntry` and `EntryIsIdempotent` say exactly when.
- The final comparison and the rename of a file update are not one step, which the code documents;
  `AnEditInTheGapIsLost` is that race.

## Model

| member | source | states |
|---|---|---|
| Evidence.CheckMeetsVerdict | crates/protocol/src/presence.rs:81-168 | for every history of observations and invalidations, under any clock, the pruned, de-duplicated incremental log decides exactly what the full history deserves |
| Evidence.StoredIsUnexpired | crates/protocol/src/presence.rs:146-167 | the number of samples a check counts is the number of live samples of the whole history that neither the check nor any earlier pruning found expired |
| Evidence.ReplayNewest | crates/protocol/src/presence.rs:118-136 | the stored last-qualifying time is that of the newest sample that counted and was not revoked since |
| Evidence.ReplaySpoken | crates/protocol/src/presence.rs:107-117 | the revocation time is set exactly while the device's last word was a revocation; even a Qualify too weak to count clears it |
| Evidence.KeepsLastRssi | crates/protocol/src/presence.rs:81-108 | the RSSI kept is that of the last thing observed, however weak and whatever it said, and none after a lost scan |
| Evidence.LiveSpacing | crates/protocol/src/presence.rs:124-136 | counted samples are at least 50 ms apart whatever the clock does |
| Evidence.CountedAgainstNewest | crates/protocol/src/presence.rs:124-136 | comparing with the newest sample alone is as good as comparing with every sample counted since the last reset |
| EvidenceProperties.DecidesAsDocumented | crates/protocol/src/presence.rs:139-168 | a decision no earlier than every Qualify is the documented one, with the window applied at decision time |
| EvidenceProperties.ClockOnlyRefuses | crates/protocol/src/presence.rs:139-168 | under any clock the decision is the documented one or an insufficient-samples refusal where it would allow; so Allow always means Allow |
| EvidenceProperties.DocumentedUnlessExpiredAhead | crates/daemon/src/control.rs:171-173 | the decision is the documented one for every configured minimum if and only if, when the device was heard freshly, no later Qualify expired a sample the reading still admits |
| EvidenceProperties.EarlierClockReadingRefuses | crates/daemon/src/control.rs:171-173 | a run and an early clock reading on which the daemon refuses and the documented policy allows |
| EvidenceProperties.SpacingCostsAtMostOne | crates/protocol/src/presence.rs:124-136 | k strong sightings 50 ms apart inside the window, with no reset among them, leave at least k-1 counted samples |
| EvidenceProperties.EnoughSightingsAllow | crates/protocol/src/presence.rs:118-168 | one such sighting more than the minimum, the last fresh by 50 ms, always authorises |
| EvidenceProperties.UncountedQualifyChangesNothing | crates/protocol/src/presence.rs:107-136 | under a nondecreasing clock, dropping a Qualify that does not count changes no later decision of any continuation if and only if the device was not being reported as locked when it came |
| EvidenceProperties.StoredSamplesAreBounded | crates/protocol/src/presence.rs:118-136 | in every run under any clock the stored samples ascend by at least 50 ms, fit one window and never outnumber the configured bound |
| EvidenceProperties.BoundIsFeasibility | crates/protocol/src/config.rs:352-363 | the configured sample bound holds if and only if some run makes the policy allow |
| EvidenceProperties.DecisionsDecay | crates/protocol/src/presence.rs:55-69 | with nothing observed a device's rank never improves |
| EvidenceProperties.AllowExpires | crates/protocol/src/presence.rs:146-158 | an Allow rests on a newest sample within the freshness bound, and past that bound the device is stale |
| Presence.Eligibility.constructor | crates/protocol/src/presence.rs:72-79 | a new log stands for the empty history under every policy |
| Presence.Eligibility.Observe | crates/protocol/src/presence.rs:107-137 | the fields remain those the full history leads to, and the history grows by this observation |
| Presence.Eligibility.Invalidate | crates/protocol/src/presence.rs:81-91 | the fields remain those the full history leads to, and the history grows by an invalidation |
| Presence.Eligibility.Check | crates/protocol/src/presence.rs:146-168 | the decision is what the unpruned history deserves |
| FleetProperties.OrderIsIrrelevant | crates/protocol/src/presence.rs:304-333 | reordering the configured devices never changes the fleet's decision on any history |
| Quorum.ReportsTheClosestReason | crates/protocol/src/presence.rs:55-69 | when no device allows, the reported reason is one a device gave and the only one of least rank |
| Quorum.RulesDemand | crates/protocol/src/presence.rs:207-226 | a fleet allows under Any exactly when one device does, under All exactly when it has devices and every one does, under AtLeast(n) exactly when n and at least one do |
| Quorum.PartialAllowNamesTheRule | crates/protocol/src/presence.rs:326-331 | the multi-device refusal is given exactly when some device allows and the fleet does not |
| Quorum.RulesAreOrdered | crates/protocol/src/presence.rs:207-226 | All implies AtLeast(n) implies Any for 1 <= n <= the device count; All and Any mean what they say |
| Quorum.FewerAllowLater | crates/protocol/src/presence.rs:304-333 | if every device's rank only worsens, no more devices allow |
| Quorum.TallyNext | crates/protocol/src/presence.rs:310-322 | the loop's counters keep counting the allowing devices and holding the least-rank reason so far |
| Quorum.TallyDecides | crates/protocol/src/presence.rs:323-333 | those counters decide exactly the declarative quorum |
| Presence.Fleet.constructor | crates/protocol/src/presence.rs:246-258 | a fleet of fresh, unshared logs for the given devices, with an empty history and needs that cover them |
| Presence.Fleet.Observe | crates/protocol/src/presence.rs:285-295 | every device's log becomes what the grown fleet history means to that device |
| Presence.Fleet.Invalidate | crates/protocol/src/presence.rs:297-301 | the same for a lost scan |
| Presence.Fleet.Tally | crates/protocol/src/presence.rs:308-322 | the loop over the devices counts those that the history lets allow and finds the closest refusal of the others |
| Presence.Fleet.Check | crates/protocol/src/presence.rs:304-333 | the decision is what the whole fleet history deserves under the configured rule |
| Presence.Fleet.Report | crates/protocol/src/presence.rs:336-343 | one row per device in configured order with the verdict its history deserves and the RSSI it last heard |
| Presence.NeedsCoverEverySpec | crates/protocol/src/presence.rs:246-258 | the fleet's needs cover every device's identity and profile |
| FleetProperties.AllowIsJustified | crates/protocol/src/presence.rs:285-333 | for any resolved configuration, run and time, an Allow means that one, all, or n devices, as the rule says, each have their minimum of matched, strong, qualifying advertisements, 50 ms apart, inside a window of at most 30 s, the newest at most 10 s old, with no revocation or lost scan since the first |
| FleetProperties.DeviceAllowIsJustified | crates/protocol/src/presence.rs:146-168 | the same for one device, with the positions in the fleet's history, under any clock |
| FleetProperties.AllowNeedsDistinctAddresses | crates/protocol/src/config.rs:168-220 | when every device sets an address, an Allow means that one, as many as there are devices, or n different addresses, as the rule says, were advertised within 10 s |
| FleetProperties.RefusalPersists | crates/protocol/src/presence.rs:304-333 | with nothing heard, a fleet never moves from refusing to allowing |
| FleetProperties.LostScanForgetsEverything | crates/daemon/src/main.rs:54-62 | after a lost scan every decision is no-device until some device is heard to qualify or revoke |
| FleetProperties.OneAdvertisementSatisfiesAll | crates/protocol/src/config.rs:172-205 | an accepted file requiring all of two devices is satisfied by one advertisement |
| Advertisements.VerdictIsExact | crates/protocol/src/identity.rs:90-138 | an address is rejected if and only if no payload could match, and matched if and only if every payload does |
| Advertisements.ResolvesExactly | crates/protocol/src/irk.rs:88-100 | a key resolves exactly the addresses made of a random part with top bits 01 and the cipher's hash of it |
| Advertisements.OneAddressPerRandomPart | crates/protocol/src/irk.rs:88-100 | so no two addresses with the same random part |
| Advertisements.RecognisedExactly | crates/protocol/src/identity.rs:71-138 | a device is recognised exactly when it has a criterion and every one it has holds of the advertisement |
| Advertisements.OneAdvertisementTwoDevices | crates/protocol/src/identity.rs:90-138 | one advertisement can match two identities if and only if some address suits both and their name prefixes do not contradict each other |
| Advertisements.OneAdvertisementTwoDevicesExactly | crates/protocol/src/identity.rs:90-138 | unless both identities have a key and neither an address, it can if and only if their fixed addresses agree and resolve under their keys and their prefixes do not contradict each other |
| Advertisements.SharedAddressIsDecidable | crates/protocol/src/irk.rs:88-100 | the same for some address suiting both: every key alone has an address it resolves |
| Advertisements.ReadsOnlyDeclaredFields | crates/protocol/src/identity.rs:80-138 | recognising and reading a device give the same answer on an advertisement stripped to the declared fields |
| Advertisements.DeclaresWhatMatters | crates/protocol/src/identity.rs:76-88 | an identity some address suits declares a field exactly when changing that field can change whether it is recognised |
| Advertisements.ProfileDeclaresWhatMatters | crates/protocol/src/profile/mod.rs:76-94 | a profile declares a field exactly when changing it can change how an advertisement is read |
| Advertisements.FetchesWhatIsNeeded | crates/daemon/src/scan.rs:66-88 | an assembled advertisement has exactly the fields asked for |
| Advertisements.ProfileNames | crates/protocol/src/profile/mod.rs:96-108 | the two canonical profile names and no others are known |
| Advertisements.ContinuityReading | crates/protocol/src/profile/apple_continuity.rs:18-38 | an advertisement qualifies exactly when its payload is a complete run of entries with one Nearby Info whose flags byte has the top bit set and the third clear, and is ignored exactly when it is absent or a complete run without one |
| Scanner.Scan | crates/daemon/src/scan.rs:50-94 | dropping uninteresting addresses and fetching only needed fields leaves every device's log as if every advertisement had been fed in full, and the fleet is shown nothing else |
| Scanner.ShortcutsAreInvisible | crates/protocol/src/presence.rs:278-295 | no device can tell a stripped advertisement from the full one, nor a dropped uninteresting one from silence |
| Scanner.EquivalentDecides | crates/protocol/src/presence.rs:304-343 | runs no device can tell apart get the same decision and report at every time |
| Continuity.ParseNearbyInfo | crates/protocol/src/apple.rs:39-68 | the loop ends on every input, and its answer is explained by a reading of the bytes as entries with the first defect it reports |
| Continuity.ParsesExactly | crates/protocol/src/apple.rs:39-68 | it succeeds if and only if the bytes are complete entries with exactly one Nearby Info of three bytes or more, and returns that entry's flags |
| Continuity.MissesExactly | crates/protocol/src/apple.rs:39-68 | Nearby Info is reported missing if and only if the bytes are complete entries without one |
| Continuity.ExplanationUnique | crates/protocol/src/apple.rs:39-68 | every payload has one explanation, the decoder's |
| Continuity.DecompositionUnique | crates/protocol/src/apple.rs:45-54 | bytes divide into entries in one way, and an incomplete tail never starts a complete entry |
| Continuity.FlagBits | crates/protocol/src/apple.rs:10-64 | which bit of the flags byte says what |
| Addresses.ParseAddress | crates/protocol/src/ble.rs:25-39 | six slots filled from exactly six octets, or a refusal |
| Addresses.AddressRoundTrip | crates/protocol/src/ble.rs:42-45 | parsing a printed address gives the address |
| Addresses.TextRoundTrip | crates/protocol/src/ble.rs:19-45 | text of the documented form is accepted and prints as itself in upper case |
| Addresses.AcceptsTheDocumentedFormAndPlusSigns | crates/protocol/src/ble.rs:19-39 | text has the documented form if and only if it is accepted and holds no plus sign |
| Addresses.PlusSignIsAccepted | crates/protocol/src/ble.rs:33 | an accepted text outside the documented form |
| Config.Resolve | crates/protocol/src/config.rs:168-220 | accepts a file if and only if it is acceptable, resolving each entry in order; otherwise reports the file's first defect, a policy's with its value and the range allowed |
| Config.FindClash | crates/protocol/src/config.rs:188-202 | the first earlier entry naming the same device, by key before address, or none |
| Config.AcceptsExactlyTheFeasiblePolicies | crates/protocol/src/config.rs:307-365 | a policy is accepted if and only if it is inside the limits and some run can satisfy it |
| Config.PolicyReadings | crates/protocol/src/config.rs:297-311 | an entry without overrides gets the defaults, and each override is taken |
| Config.PolicyErrorIsHonest | crates/protocol/src/config.rs:313-365 | a refused policy is refused for a field whose value lies outside the documented range reported with it |
| Config.PolicyErrorIsFirst | crates/protocol/src/config.rs:313-365 | and of several such fields for the first |
| Config.RuleReadings | crates/protocol/src/config.rs:225-239 | no rule and `any` mean one device, `all` all, and a count counts from 1 to 255 and is refused outside |
| Config.RuleIsCounted | crates/protocol/src/config.rs:225-239 | and no other text is taken for one of these |
| Config.ReversedTwice | crates/protocol/src/config.rs:380-393 | the key is the decoded bytes back to front |
| Config.EntryKeeps | crates/protocol/src/config.rs:248-393 | a resolved device has its entry's id, profile and policy, and exactly the criteria the entry gives, decoded, the key back to front |
| Config.ResolvedFleetIsSound | crates/protocol/src/config.rs:168-220 | resolved devices have distinct ids, keys and addresses, a criterion each, feasible policies, and a rule between 1 and the device count |
| Config.CollectDevices | crates/protocol/src/config.rs:172-205 | the loop keeps exactly the usable entries before the first defect |
| Config.AnyIdIsAccepted | crates/protocol/src/config.rs:366-378 | whether an entry resolves does not depend on its id |
| Config.ResolvedPrefixIsNotBlank | crates/protocol/src/config.rs:270-281 | no resolved device is recognised by a blank name prefix |
| Config.AtMostOneDevicePerAdvertisement | crates/protocol/src/config.rs:172-205 | when every device sets an address, an advertisement matches at most one |
| AtomicUpdate.UpdatesAreLinearizable | crates/cli/src/atomic.rs:115-185 | with any number of cooperating writers in any interleaving, crashes included, the file always holds the committed renders applied one after another, never a partial write, and nobody gets a conflict |
| AtomicUpdate.CommitsReplaceWhatTheyRendered | crates/cli/src/atomic.rs:115-185 | with outsiders editing at will, each commit is the render of the very content it replaces unless an edit fell between its comparison and its rename |
| AtomicUpdate.OutcomesAreHonest | crates/cli/src/atomic.rs:134-185 | an update committed, and once, if and only if it reports success with a change or a failed directory sync; time-outs, render failures, conflicts and I/O failures changed nothing |
| AtomicUpdate.OutcomeIsAboutTheSnapshot | crates/cli/src/atomic.rs:166-185 | a writer reports nothing to change exactly when rendering what the file held at its snapshot, or the stand-in for a missing file, gave that text, and a failed render exactly when rendering it failed |
| AtomicUpdate.OutcomeHasASnapshot | crates/cli/src/atomic.rs:147-185 | every outcome but a time-out and an I/O failure follows a snapshot |
| AtomicUpdate.ConflictIsAChange | crates/cli/src/atomic.rs:174-182 | a conflict is reported only when the comparison found another file or contents than the snapshot |
| AtomicUpdate.TemporariesAreRemoved | crates/cli/src/atomic.rs:63-84 | in every run only a writer at work on one, or one that died, has a temporary file |
| AtomicUpdate.WhatIsReported | crates/cli/src/atomic.rs:66-84 | which step ends an update with which outcome |
| AtomicUpdate.WhatWritersCanDo | crates/cli/src/atomic.rs:147-185 | when each step can be taken |
| AtomicUpdate.UpdateCompletes | crates/cli/src/atomic.rs:134-185 | from any moment at which the lock is free a waiting writer can finish with the file holding exactly the render of what it held, or unchanged when there is nothing to change or the render fails |
| AtomicUpdate.MissingFileIsCreated | crates/cli/src/atomic.rs:124-126 | a missing file is created with the render of its stand-in |
| AtomicUpdate.WritersExclude | crates/cli/src/atomic.rs:147-164 | at most one writer is between taking the lock and letting it go |
| AtomicUpdate.RunKeepsInv | crates/cli/src/atomic.rs:31-84 | in every reachable state a writer that compared holds a complete temporary file that renders what it read |
| AtomicUpdate.AnEditInTheGapIsLost | crates/cli/src/atomic.rs:121-122 | for every writer with something to change there is a run in which an outsider's edit is overwritten and the update reports success |
| Startup.DaemonsExclude | crates/daemon/src/control.rs:46-70 | at most one daemon is between taking the lock and ending its serve |
| Startup.LiveSocketsAreNeverRemoved | crates/daemon/src/control.rs:93-135 | in every interleaving, with deaths and tampering, no daemon removes a socket on which a daemon still listens unless an outsider puts a daemon's socket back under the path |
| Startup.RemovedLiveSocketWasPutBack | crates/daemon/src/control.rs:113-135 | and then that very socket was put back after the remover's probe was refused |
| Startup.SocketPutBackIsRemoved | crates/daemon/src/control.rs:113-135 | a run in which this happens |
| Startup.StaleSocketIsReplaced | crates/daemon/src/control.rs:66-71 | a run in which a stale socket is removed and the daemon serves |
| Startup.EveryRemovalFollowsARefusal | crates/daemon/src/control.rs:113-135 | every removal was made by a daemon whose probe nobody answered and which held the lock from that probe until the removal |
| Startup.RemoversFoundASocket | crates/daemon/src/control.rs:93-107 | every removal was made by a daemon whose inspection of the path had found a socket |
| Startup.NonSocketsAreNeverRemoved | crates/daemon/src/control.rs:99-107 | without tampering only sockets are removed, and where something else stands it stays and no daemon serves |
| Startup.NonSocketIsLeft | crates/daemon/src/control.rs:99-107 | a daemon whose inspection finds something else only lets go |
| Startup.WhatAnswers | crates/daemon/src/control.rs:109-121 | a connection is accepted exactly by a listening daemon's own socket or a live foreign one |
| Startup.WhatStepsChange | crates/daemon/src/control.rs:66-92 | the path changes only by a removal, a binding where there is nothing, and outsiders; a daemon listens from its binding until it stops |
| Startup.WhatDaemonsCanDo | crates/daemon/src/control.rs:46-92 | when each step can be taken |
| Startup.NextDaemonTakesOver | crates/daemon/src/control.rs:46-92 | a run in which one daemon stops and the next replaces its dead socket and serves |
| Startup.LiveForeignSocketStays | crates/daemon/src/control.rs:109-121 | without tampering a live foreign socket is left in place and no daemon serves |
| Startup.RemovalFollowsRefusal | crates/daemon/src/control.rs:113-135 | a daemon about to remove the endpoint probed it in time, was refused, and has held the lock since |
| Startup.ServingDaemonAnswers | crates/daemon/src/control.rs:71-91 | without tampering the endpoint of a serving daemon is its own socket and answers |
| LockScreen.UnlocksExactlyWhenDeserved | crates/cli/src/setup/lock.rs:66-137 | presence finishes an unlock if and only if PAM succeeds for the attempt started by a hold the timer completed with no release or cancel in between, not ended since, while locked, secure and with no password in flight |
| LockScreen.OneUnlockPerHold | crates/cli/src/setup/lock.rs:117-133 | a hold is spent by its unlock |
| LockScreen.AcceptedHoldCanUnlock | crates/cli/src/setup/lock.rs:79-127 | from every reachable state that accepts a hold, letting the timer finish and PAM succeed unlocks |
| LockScreen.FreshLockAcceptsHold | crates/cli/src/setup/lock.rs:79-90 | a locked, secure session with the policy present accepts a hold |
| LockScreen.HoldReplies | crates/cli/src/setup/lock.rs:79-91 | a caller is told exactly why a hold is refused: not locked, else something under way, else no policy |
| LockScreen.FieldsMean | crates/cli/src/setup/lock.rs:66-181 | in every run the session is locked, secure, configured, waiting for a password or running PAM exactly while the event that began it has not been followed by one that ends it |
| LockScreen.WhatCanHappen | crates/cli/src/setup/lock.rs:100-133 | every event is possible at any time, but a timer fires only while running and PAM reports only on an attempt it runs |
| LockScreen.AuthenticatorsExclude | crates/cli/src/setup/lock.rs:68-181 | in every run a password in flight excludes a running hold and a presence attempt, and these exclude each other |
| LockScreen.TimerMeansHeld | crates/cli/src/setup/lock.rs:79-100 | the timer runs if and only if some accepted hold has not been released, cancelled or completed |
| LockScreen.WaitingMeansAttempt | crates/cli/src/setup/lock.rs:66-133 | a result is waited for if and only if some admissible completed hold started an attempt nothing has ended |
| LockScreen.AttemptIsThatOne | crates/cli/src/setup/lock.rs:114-127 | the PAM attempt whose result is waited for is the one that hold started, so an aborted attempt's late result never unlocks |
| Wire.StatusRoundTrip | crates/daemon/src/control.rs:171-190 | printing rows and decision, framing, reading by lines and parsing yields the same rows in order if and only if every id is one token, and then the same decision |
| Wire.AnIdCanForgeRows | crates/protocol/src/wire.rs:37-49 | for any two printable rows there is an id under which one device's response is the response for both |
| Wire.ClientSeesTheVerdicts | crates/cli/src/wizard.rs:1581-1588 | whatever a fleet was told, a client reading its status sees every device's id, profile, verdict, reason and RSSI in order if and only if every id is one token, and then the fleet's verdict |
| Wire.Status | crates/daemon/src/control.rs:171-190 | the response is the printed report and decision that the fleet's history deserves at one clock reading |
| Wire.RequestLines | crates/cli/src/client.rs:29-43 | the lines before the terminator, or nothing if the connection closes first |
| Wire.LinesRead | crates/cli/src/client.rs:29-43 | a stream's lines are those its newlines end, less a carriage return, and a last one that none ends |
| Wire.AggregateIsTheLast | crates/cli/src/wizard.rs:1585-1588 | the aggregate shown is that of the last line that is one |
| Wire.RowRoundTrip | crates/protocol/src/wire.rs:37-93 | a row parses back as itself if and only if its id is one token |
| Wire.AggregateRoundTrip | crates/protocol/src/wire.rs:104-116 | every rendered decision parses back as itself, and neither as a row nor as the terminator |
| Wire.TokensDiffer | crates/protocol/src/wire.rs:22-33 | no two refusal reasons share a token |
| Wire.TheTokens | crates/protocol/src/wire.rs:22-33 | the refusal tokens of the protocol |
| Wire.RowsAreNotAggregates | crates/protocol/src/wire.rs:61-116 | no line is both a device row and an aggregate |
| Wire.FramingRoundTrip | crates/cli/src/client.rs:29-43 | lines without newlines, carriage returns or the terminator survive framing unchanged |
| Wire.RssiRoundTrip | crates/protocol/src/wire.rs:37-93 | an RSSI parses back from its field exactly when there is none or it fits a signed 16-bit integer |
| Numerals.SignedRoundTrip | crates/protocol/src/wire.rs:37-93 | printing and parsing a signed integer inside the bounds is the identity |
| Numerals.SignedReads | crates/protocol/src/wire.rs:37-93 | a printed integer is read exactly when it is in range |
| Numerals.ReadsOnlyNumbers | crates/protocol/src/config.rs:229-238 | what is read is at least one digit after a sign the type allows, and in range |
| PamReply.AnySplitYieldsTheDecision | crates/pam/src/lib.rs:179-242 | for every decision the daemon can render and every way its reply can arrive, PAM succeeds if and only if the decision was Allow and fails the authentication otherwise |
| PamReply.PamAnswersExactly | crates/pam/src/lib.rs:43-242 | for every sequence of reads PAM succeeds exactly when some first stretch brought in the allowing line, fails the authentication exactly when one brought in a refusal of one graphic word, and is unavailable in every other case |
| PamReply.AnswersByALine | crates/pam/src/lib.rs:179-201 | whatever the reader answers, it answers by a line some first stretch of reads brought in |
| PamReply.AllowsOnlyTheAllowLine | crates/pam/src/lib.rs:179-235 | the reader allows only when what it has consumed is exactly the allowing line |
| PamReply.SplitIsIrrelevant | crates/pam/src/lib.rs:179-201 | the answer depends on the bytes up to the first newline, not on how or with what after them they arrive |
| PamReply.ReadReply | crates/pam/src/lib.rs:179-201 | the loop over the 64-byte buffer answers as specified on every sequence of reads, never indexing past the buffer |
| MenuLexer.Scan | crates/cli/src/setup/menu.rs:92-134 | the loop with its flags finds the last position the comment- and string-aware automaton marks |
| MenuLexer.CommaBecomesLast | crates/cli/src/setup/menu.rs:92-134 | after a comma is inserted behind the last meaningful character the answer is that comma, or the quote of a string left open |
| MenuRoundTrip.RemovalUndoesEntry | crates/cli/src/setup/menu.rs:139-197 | removing what was installed in unmarked text restores it byte for byte if and only if its last brace is not on a first line with text before it, no string is open there, and the last entry had no trailing comma |
| MenuRoundTrip.EntryIsIdempotent | crates/cli/src/setup/menu.rs:174-197 | installing twice is installing once if and only if the first two of these hold and a trailing comma of the file's own directly follows an entry: a meaningful character, no brace or comma, nor a slash that joins a comment without it |
| MenuRoundTrip.InstalledText | crates/cli/src/setup/menu.rs:174-197 | an install leaves the file's own text, its last entry separated, with the marker lines and the rows between them on lines of their own before the last brace |
| MenuLexer.CommaUncovers | crates/cli/src/setup/menu.rs:92-134 | with a last comma dropped, the scan's answer is the character right before it if and only if that is meaningful and joins no comment |
| MenuRoundTrip.CommaIsPutBackExactly | crates/cli/src/setup/menu.rs:160-183 | dropping a trailing comma and separating the last entry again gives the text back if and only if the comma directly followed an entry |
| MenuRows.UninstallRestores | crates/cli/src/setup/menu.rs:17-83 | the round trip for the real markers and the generated rows |
| MenuRows.ReinstallChangesNothing | crates/cli/src/setup/menu.rs:17-83 | the idempotence for the real markers and the generated rows |
| MenuRows.TheRows | crates/cli/src/setup/menu.rs:37-83 | the generated rows hold no two slashes in a row, quotes escaped, so no marker occurs in them |
| MenuRows.TheMarkers | crates/cli/src/setup/menu.rs:17-18 | the markers have the shape the edit relies on |
| MenuRows.OfferedWhen | crates/cli/src/setup/menu.rs:56-82 | setup is shown while the lock is not applied, managing and removing it while it is |
| MenuRows.EscapeIsUndone | crates/cli/src/setup/menu.rs:46-54 | a JSON reader gets back the condition that was meant |
| Text.TrimsBlanks | crates/protocol/src/config.rs:384-387 | trimming takes blank text off both ends and no more |
| MenuRoundTrip.OneLineObjectIsNotRestored | crates/cli/src/setup/menu.rs:139-197 | on `{}` removal takes the opening brace with the block |
| MenuEdit.RenderRemoval | crates/cli/src/setup/menu.rs:139-166 | the in-place edits compute the specified removal, malformed blocks included |
| MenuEdit.RenderEntry | crates/cli/src/setup/menu.rs:174-197 | the in-place edits compute the specified installation, missing braces included |
| MenuRoundTrip.RemovalFailsExactly | crates/cli/src/setup/menu.rs:139-148 | a removal fails exactly when the end marker first comes before the start marker |
| MenuRoundTrip.EntryFailsExactly | crates/cli/src/setup/menu.rs:174-192 | an install fails exactly when the removal does or no closing brace is left |
| MenuRoundTrip.CuttingTheBlock | crates/cli/src/setup/menu.rs:139-166 | after an insertion the markers are found where they were put and cutting their lines loses only what shared the block's first line |
| Slugs.MakeSlug | crates/cli/src/devices.rs:34-45 | the push-and-trim loop joins the name's alphanumeric runs, in lower case, with single dashes |
| Slugs.SlugShape | crates/cli/src/devices.rs:31-45 | a slug is lower-case alphanumerics with single inner dashes, and only a name without alphanumerics has none |
| Slugs.SlugIsIdempotent | crates/cli/src/devices.rs:34-45 | the slug of a slug is itself, and slugs keep every letter and digit in order |
| DeviceIds.SomeCandidateIsFree | crates/cli/src/devices.rs:134-139 | among N+1 suffixed candidates one is free of N taken ids, so the fallback is unreachable |
| DeviceIds.DeriveId | crates/cli/src/devices.rs:111-140 | the id enrolled with this address, else the base if free, else the base with the least free suffix from 2 |
| DeviceIds.BaseReadings | crates/cli/src/devices.rs:127-133 | the base is the name's slug, else the address's, else `device` |
| DeviceIds.DerivedIdIsFresh | crates/cli/src/devices.rs:103-140 | unless the address is enrolled already, the derived id is nobody's |
| DeviceIds.SameAddressIgnoringCase | crates/cli/src/devices.rs:115-125 | addresses of the documented form match ignoring case exactly when they are the same address |
| DeviceIds.DerivedIdIsToken | crates/cli/src/devices.rs:31-140 | and it is one token, so its status row is never lost |
| DeviceTables.EveryTableIsKeptExactly | crates/cli/src/devices.rs:283-336 | writing a device keeps every table and adds one if and only if no table carries its id at that time |
| DeviceTables.EnrollingSomethingNewReplacesNothing | crates/cli/src/devices.rs:103-140 | it does when the id was derived from the very tables it is written to and they all read; removing the device gives the old tables back |
| DeviceTables.UnreadableFileLosesADevice | crates/cli/src/devices.rs:111-114 | when the one enrolled table keeps the file from reading, a new device of its name derives its id, and writing it leaves nothing of the old one |
| DeviceTables.HandEditedIsLost | crates/cli/src/devices.rs:111-114 | such a table, with a threshold no entry can hold |
| DeviceTables.FreshTableReads | crates/protocol/src/config.rs:38-56 | what was written reads as an entry, so the loss goes unreported |
| DeviceTables.EnrollmentReadsBack | crates/cli/src/devices.rs:301-336 | a newly written table reads back as the entry with exactly the id, profile, criteria and overrides given |
| DeviceTables.ReadsExactly | crates/protocol/src/config.rs:38-56 | a table reads exactly when it stands for a typed entry, key by key, and reads as that entry |
| DeviceTables.SecondWriterReplacesTheFirst | crates/cli/src/devices.rs:111-140 | of two enrollments that derived the same id before either wrote, the second replaces the first |
| DeviceTables.AcceptedCriteriaResolve | crates/cli/src/devices.rs:159-183 | criteria are accepted for writing if and only if they resolve or only their blank name prefix does not |
| DeviceTables.ApplyTouchesOneTable | crates/cli/src/devices.rs:283-336 | writing a device changes the first table with its id and no other, or adds one at the end |
| DeviceTables.NoStaleCriterion | crates/cli/src/devices.rs:236-327 | after a re-enrollment the criteria are the new ones and none is left of the old |
| DeviceTables.NoStaleOverride | crates/cli/src/devices.rs:236-335 | the same for the policy overrides |
| DeviceTables.ReplacementIsFullUnlessForeignKeys | crates/cli/src/devices.rs:301-336 | re-enrolling gives the table of a first enrollment if and only if the old one held only its id and the keys enrollment owns |
| DeviceTables.SampleWindowSurvives | crates/cli/src/devices.rs:236-336 | a hand-set sample window outlives a re-enrollment |
| DeviceTables.Document.Upsert | crates/cli/src/devices.rs:262-299 | the index of the first table with the id, or of one appended; a wrong shape is an error that changes nothing |
| DeviceTables.Document.ApplyDevice | crates/cli/src/devices.rs:159-336 | writes exactly one device, or fails with the first defect of its criteria or a wrong document shape and changes nothing |
| DeviceTables.Document.RemoveDevice | crates/cli/src/devices.rs:384-409 | removes every table with the id, or fails with the right error when there is none |

## Left out

- AES, base64, UUID and TOML parsing: the cipher and the decoders are parameters, and every result holds for any choice of them.
- Bluetooth, D-Bus and failed property reads: an adapter event is an address with the fields it would answer reads with, and whether it has an RSSI.
- Integer widths: times are unbounded naturals with saturating subtraction, RSSI an unbounded integer bounded to 16 bits only where it is printed; policy fields above their type's maximum never parse.
- The schema version check, which happens before a file is resolved, and the wording of error messages.
- File updates: a snapshot is one step, file devices are not told apart, permissions and the retries for a temporary name are not modelled, and failures before the lock is asked for change nothing and are omitted.
- Lock files are never removed or replaced.
- The daemon's client handling: peer credentials, the connection limit and request parsing.
- The stock lock's own QML appears only as the events the patches rely on, a PAM context stays active until its completion is delivered, and hint texts are not modelled.
- Patching and staging the lock-screen clone: text is replaced at fixed anchors of a stock file that is not part of the repository.
- Time-outs are nondeterministic failures, and durability of synced data is assumed of no step.
- Menu text: positions are characters, not bytes.
- The PAM module's password-file lookup and its checks of the socket's owner and mode.
- Configuration edits: comments and layout of the edited document, and the validation of the whole file before it is written.
- Terminal screens, pairing, package and service management.
