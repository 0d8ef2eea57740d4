# LLMSafeSpaces: a verified model of the relay router and agentd cores

This project models, in Dafny, the parts of LLMSafeSpaces whose correctness does
not show from reading one function, and proves what they promise.

- **Key lineage** (`KeyManager`, `KeyRetention`, `KeyLineage`, `KeyForks`,
  `KeyProgress`): any number of router replicas boot, rotate, load and recover
  HPKE keypairs against two Kubernetes Secrets whose updates are compare-and-swap. Every Get, Create,
  Update, locked read and locked install is a step of its own; calls may fail,
  replies may be lost, replicas may restart, and watch deliveries may be
  arbitrarily stale.
- **Redaction** (`Redaction`, `RedactionSurvival`, `RuleSplits`, `RuleStreams`,
  `RuleOrder`, `ValueSurvival`): the streaming redactor against whole-buffer
  replacement, for every way of cutting the input, with one rule and with many.
- **Compaction** (`Compaction`, `Positions`, `CompactionLaws`,
  `CompactionReference`, `CompactionText`, `CompactionFilter`): the two-pass
  stubbing of aged tool-call arguments over parsed JSON, its incremental law, the
  flat-list reference script, and the substring test on the body's text that
  decides whether to look at all.
- **Relay tokens** (`Base64Url`, `RelayToken`): base64url down to its bits, and
  when a minted token verifies.
- **Quota** (`Quota`, `QuotaBound`, `QuotaExact`): minute buckets in a sliding
  window, and the bound they really give.
- **Fleet** (`Fleet`, `Draining`, `Probes`, `Detector`, `Responses`): weighted
  selection over reals, and the 429 detector as a step system with any number of
  overlapping requests.
- **Envelope cache** (`EnvelopeCache`): the two maps against the live Secrets.
- **agentd** (`JsonWalk`, `BoardPayload`, `EventbusHealth`, `Utf8`,
  `HeaderStore`, `HeaderRuns`): the duplicate-key walk over the standard
  decoder's token states, the event-bus health collector, and the persisted
  dev-preview header store.

Where the source updates an object in place the model is a class; each method is
proved against a function of the old state, and the laws are proved about those
functions over whole runs. Clocks, random draws, map iteration order, store
failures and keys are parameters. `dafny verify dfyconfig.toml` checks everything.

## Where the code and its documentation part

These are properties the code or its comments suggest and the code does not meet;
each has an exact condition and a witness among the lemmas.

- `Rotate` evaluates the high-water mark twice without holding the lock
  (`cmd/relay-router/byo_keys.go:321-323`). Writes strictly raise the generation
  if and only if the two reads of every winning rotation agree
  (`WritesRaiseExactlyWhenReadsAgree`), and otherwise some generation is stored
  twice (`StoredTwiceExactly`). One keyID can then come to mean two keys on two
  replicas, and only then (`SingleLineageExactly`; `SplitReadsFork` is such a run).
- `applyLoaded` checks the mark under a read lock and installs under a write
  lock taken later (`byo_keys.go:251-264`). Lookups obey the retention after
  every step of a history if and only if every install of an already superseded
  generation finds it still inside its window (`LookupLawExactly`,
  `HistoryAgreesExactly`, `DeadlineSplitExactly`); otherwise the late key gets no
  deadline and is served for ever (`LateInstallNeverExpires`).
- The streamed body equals the buffered one for a single rule if and only if the
  rule is seamless (`StreamEqualsBatchExactly`). For any number of guarded rules
  it does if and only if it does on the critical pairs, the finitely many ways a
  value ends inside one that is replaced before it or runs into it
  (`StreamJoinsExactly`). With replacements of one length, as the router's single
  replacement text has, that means no such overlap at all (`RulesStreamExactly`,
  with `OverlappingValuesDiffer` as an instance); with others the replacements
  may add up (`AddedUpReplacementsAgree`).
- A value can outlive its own replacement. For one rule some input lets it
  through, buffered or streamed, if and only if the replacement leaks: it contains
  the value, ends with a proper prefix of it, or meets the rest of it behind a
  prefix that opens no earlier match (`SurvivesExactly`, `SurvivesStreamExactly`).
  For guarded rules, as base64 values and the router's replacement are, no
  registered value ever gets through (`NothingRegisteredSurvives`); raw key
  material need not be of that kind.
- The token separator `_` is a letter of the base64url alphabet: a minted token
  verifies in its window if and only if its body spells no `_`
  (`MintedTokenVerifies`).
- The request cap does not hold per window: a window can hold twice the cap, and
  for every cap some run does (`AdmissionsAreBounded`, `TwiceTheCapIsReached`).
  `Admit` reads the clock once to prune and once to add. However far apart the
  readings are, intervals of a given length stay within the cap if and only if
  they are at most the window less a minute plus one nanosecond
  (`CapHoldsExactly`); if each call reads one time only, the boundary is the
  window less one nanosecond short of a minute, or of the window if that is
  shorter (`CapHoldsExactlyAtOnce`). At the default window of one minute either
  is a single instant.
- The pre-filter looks for the tool-name prefix behind a quote in the raw text
  (`cmd/relay-router/agedarg.go:101-109`), while the pass compares decoded names.
  It loses a rewrite if and only if some message has a call to stub and no string
  of the body spells the prefix out, at its start or behind a quote inside it
  (`FilterLosesExactly`); a name written with a `\u` escape makes such a body
  (`EscapedNameIsLost`).
- Compacting incrementally equals compacting once unless a non-object entry of
  an already rewritten message ages later (`IncrementalExactly`,
  `LateMalformedHappens`).
- The comment at `cmd/relay-router/fleet.go:378-381` says clearing keeps a
  429-drained relay from being excluded permanently. Only a request already in
  flight or removal from the peer list clears the mark, so a drained relay with
  none in flight stays out (`MarkClearedExactly`, `MarkedStaysOut`).
- The three-probe threshold (`detector.go:19-21`) is out of reach while calls for
  a relay do not overlap (`ProbesNeverPassOne`) and is reached, whatever the
  rate, by a run in which never more than two overlap (`TwoAtATimeDrain`).
- The cache agrees with the live Secrets after every event if and only if none
  takes labels or envelope from a live Secret without deleting it, leaves labels
  that no other Secret carries, clashes with another Secret of the same labels, or
  deletes one of several (`AgreesExactly`, `RunAgreesExactly`). A relabelled
  Secret's first envelope stays until a Secret takes those labels again
  (`RelabelledEnvelopeOutlivesItsSecret`).
- The header store's memory and file agree, and a restart restores it, if and
  only if every value is well-formed UTF-8 (`FileMatchesExactly`,
  `ReloadExactly`); the validation also admits other bytes above 0x7F.

## Model

| member | source | states |
|---|---|---|
| KeyManager.Manager.constructor | cmd/relay-router/byo_keys.go:96-108 | a fresh manager holds no key and no deadline, and a non-positive retention becomes the default |
| KeyManager.Manager.SweepExpired | cmd/relay-router/byo_keys.go:283-291 | exactly the keys whose deadline has passed lose resolver and deadline; every other key keeps both |
| KeyManager.Manager.Install | cmd/relay-router/byo_keys.go:264-281 | the locked half of a load: sweep, stamp every other key if this generation is a new high, register the key, raise the mark |
| KeyManager.Manager.ApplyLoaded | cmd/relay-router/byo_keys.go:242-281 | loaded exactly when the payload has all its fields, its public key belongs to its private key and its generation is not below the mark; any other is refused, with its generation if it parses and zero if not, and changes nothing (no other call between the two locks) |
| KeyManager.LoadExactly | cmd/relay-router/byo_keys.go:242-262 | exactly which payloads a load takes against any mark, and the generation each refusal carries into recovery |
| KeyManager.Manager.Resolve | cmd/relay-router/byo_keys.go:295-312 | a lookup answers with the key for that generation unless its deadline has passed, whether or not the sweep has reached it; a hit changes nothing, a miss drops exactly the keys past their deadline |
| KeyManager.LookupDropsExactly | cmd/relay-router/byo_keys.go:295-312 | a hit leaves all keys; a miss drops exactly those past their deadline |
| KeyRetention.HistoryAgreesExactly | cmd/relay-router/byo_keys.go:242-312 | over all timed histories of installs and lookups, every key and deadline is after every prefix what the history alone dictates, if and only if every install of a superseded generation finds it loaded before and not past its deadline |
| KeyRetention.LookupLawExactly | cmd/relay-router/byo_keys.go:242-312 | under the same condition, and only then, a generation is after every prefix found exactly when it was loaded and either nothing higher was or the first higher load is at most the retention ago; sweeping is never observable |
| KeyRetention.DeadlineSplitExactly | cmd/relay-router/byo_keys.go:251-281 | under the same condition, and only then, the keys with a deadline are after every prefix exactly the loaded keys other than the current one |
| KeyRetention.LateInstallExactlyBreaksTheSplit | cmd/relay-router/byo_keys.go:251-281 | one step of that: with the two locks apart, an install keeps the split if and only if its generation is not below the mark or is still inside its window |
| KeyRetention.LateInstallNeverExpires | cmd/relay-router/byo_keys.go:251-281 | a concrete two-install history after which generation 1 is found at every later time |
| KeyLineage.RunKeeps | cmd/relay-router/byo_keys.go:117-379 | every step of boot, load, recovery, rotation and publication keeps the protocol invariant, for any interleaving, failure, lost reply or restart |
| KeyLineage.WritesRaiseExactlyWhenReadsAgree | cmd/relay-router/byo_keys.go:321-379 | in every reachable state all keypair writes strictly raised the generation if and only if no winning rotation saw two different marks |
| KeyForks.StoredTwiceExactly | cmd/relay-router/byo_keys.go:321-379 | in every reachable state some generation was stored twice if and only if some winning rotation saw two different marks |
| KeyForks.SingleLineageExactly | cmd/relay-router/byo_keys.go:117-379 | with keys generated once and two replicas, the writes so far admit a reachable state in which two replicas resolve one keyID to different private keys if and only if some winning rotation saw two different marks |
| KeyLineage.PublishedWasStored | cmd/relay-router/byo_keys.go:174-205 | the published payload is always the public half of a keypair the private Secret held, and under the condition never ahead of it |
| KeyProgress.GoesOnPublished | cmd/relay-router/byo_keys.go:174-205 | in every state a publication that goes on to load its keypair leaves the public Secret showing that keypair |
| KeyProgress.PublishesAlone | cmd/relay-router/byo_keys.go:174-205 | a publication that nothing interrupts ends within two steps with the public Secret showing the keypair, be it missing, stale or right before, and rewrites it only if it differed |
| KeyProgress.BeatenCreatePublishes | cmd/relay-router/byo_keys.go:181-204 | one whose create another replica beats adopts that Secret and still ends so |
| KeyProgress.BootsAlone | cmd/relay-router/byo_keys.go:117-135 | a first boot that nothing interrupts ends with the generation above the mark stored, published and served |
| KeyProgress.AdoptsAlone | cmd/relay-router/byo_keys.go:117-153 | a boot that finds a keypair serves it and leaves it stored, publishes it if the public Secret is missing, and leaves one that is there alone |
| KeyProgress.HealNeedsPayload | cmd/relay-router/byo_keys.go:145-161 | a healing boot that finds no payload to publish gives up |
| KeyProgress.RotatesAlone | cmd/relay-router/byo_keys.go:321-379 | a rotation of the generation in the Secret that nothing interrupts ends with the next one stored, published and served |
| KeyProgress.RotationRefused | cmd/relay-router/byo_keys.go:340-353 | a rotation that finds another generation than its mark changes nothing |
| KeyProgress.RecoversAlone | cmd/relay-router/byo_keys.go:219-240 | a recovery that nothing interrupts replaces a corrupt payload, or one of the generation it saw, by one above both that and the mark, published and served |
| KeyProgress.FailuresExactly | cmd/relay-router/byo_keys.go:46-58 | store calls and nothing else fail, leaving all but their task as it was; one whose reply is lost has had its effect |
| KeyProgress.UpdatesCompareVersions | cmd/relay-router/byo_keys.go:366-371 | an update of either Secret takes effect at the version it read and at no other |
| KeyLineage.StaleDeliveryStartsRecovery | cmd/relay-router/byo_keys.go:219-256 | a delivery below the replica's mark leads into the recovery path and changes neither Secret nor key |
| KeyLineage.StaleRecoveryWritesNothing | cmd/relay-router/byo_keys.go:219-240 | under the condition every step of a recovery leaves both Secrets and all replicas as they are, because the generation precondition refuses it |
| KeyLineage.NoRecoveryIsStored | cmd/relay-router/byo_keys.go:340-353 | under the condition no payload the keypair Secret ever held was written by a recovery |
| KeyLineage.SplitReadsFork | cmd/relay-router/byo_keys.go:321-329 | a reachable state in which two replicas hold different keys for generation 2 |
| Redaction.Apply | cmd/relay-router/byo_cache.go:159-164 | the buffer with every rule applied in order, longest value first |
| Redaction.StreamRedactor.constructor | cmd/relay-router/byo_cache.go:185-189 | a fresh stream holds nothing back |
| Redaction.StreamRedactor.Write | cmd/relay-router/byo_cache.go:191-209 | output and new carry are the redacted carry-plus-chunk, cut one byte short of the longest value from its end |
| Redaction.StreamRedactor.Flush | cmd/relay-router/byo_cache.go:212-219 | the held-back tail comes out and nothing stays |
| Redaction.SeamlessStream | cmd/relay-router/byo_cache.go:191-219 | for a seamless rule the concatenated output equals replacement over the whole input, however it is cut |
| Redaction.StreamEqualsBatchExactly | cmd/relay-router/byo_cache.go:159-219 | stream and buffer agree on all inputs and cuts if and only if the replacement is the value, or is empty and the value is one letter repeated, or no proper prefix of the value lines up with the end of the replacement |
| Redaction.SeamShows | cmd/relay-router/byo_cache.go:191-219 | for every rule that is not seamless, two chunks on which stream and buffer differ |
| ValueSurvival.SurvivesExactly | cmd/relay-router/byo_cache.go:159-164 | for any value and replacement, some input still contains the value after replacement if and only if the replacement contains it, ends with a proper prefix of it, or starts like the rest of it behind a prefix that opens no earlier match |
| ValueSurvival.SurvivesStreamExactly | cmd/relay-router/byo_cache.go:191-219 | the same condition decides whether some chunks let the value through the stream |
| RedactionSurvival.GuardedIsClear | cmd/relay-router/byo_cache.go:191-219 | a replacement whose end bytes are foreign to the value is seamless |
| RedactionSurvival.NoSharedByteGuards | cmd/relay-router/byo_cache.go:149-155 | a non-empty replacement that shares no byte with a value meets that condition |
| RedactionSurvival.CarryIsEnough | cmd/relay-router/byo_cache.go:166-219 | for any guarded rules holding back one byte less than the longest value is as good as holding everything back and rescanning all of it with each chunk |
| RedactionSurvival.NothingRegisteredSurvives | cmd/relay-router/byo_cache.go:149-219 | for any set of guarded rules and any cutting, no registered value occurs anywhere in what the client receives |
| RuleStreams.StreamJoinsExactly | cmd/relay-router/byo_cache.go:149-219 | for any number of guarded rules, stream and buffer agree on all inputs and all cuts if and only if they agree on the critical pairs: two chunks for each way a live value ends inside or runs into an earlier one |
| RuleOrder.OrderedStream | cmd/relay-router/byo_cache.go:149-219 | rules whose values do not overlap so agree on all chunks, whatever their replacements |
| RuleOrder.RulesStreamExactly | cmd/relay-router/byo_cache.go:149-219 | for any number of guarded rules with replacements of one length, stream and buffer agree on all chunks if and only if no live value ends inside or runs into a value replaced before it |
| RuleOrder.AddedUpReplacementsAgree | cmd/relay-router/byo_cache.go:149-219 | an instance of the general law: two rules whose values overlap and whose replacements add up agree on all chunks |
| RuleOrder.OverlappingValuesDiffer | cmd/relay-router/byo_cache.go:191-219 | an instance of that law: for values "abcd" and "bc" some chunks stream to something other than the buffered result |
| Base64Url.RoundTrip | cmd/relay-router/byo_token.go:72-75 | unpadded base64url decodes what it encoded, for all byte strings |
| Base64Url.DecodesExactly | cmd/relay-router/byo_token.go:96-100 | text without line breaks decodes if and only if it is spelled in the alphabet and leaves no lone symbol |
| Base64Url.SkipsBreaks | cmd/relay-router/byo_token.go:96-100 | a line break anywhere in the text makes no difference |
| Base64Url.DecodedReads | cmd/relay-router/byo_token.go:96-100 | what a text decodes to encodes back to it, but for the spare bits of its last symbol |
| Base64Url.DecodedLength | cmd/relay-router/byo_token.go:96-100 | text that decodes has three quarters of its length in bytes |
| Base64Url.UnderscoreExactly | cmd/relay-router/byo_token.go:72 | the encoding spells an underscore exactly when some six-bit group is all ones |
| Base64Url.AsciiUnderscore | cmd/relay-router/byo_token.go:72 | for bytes below 128 that is a question mark or DEL at a position congruent to 2 modulo 3 |
| RelayToken.VerifiesExactly | cmd/relay-router/byo_token.go:84-116 | any token at all verifies to a payload if and only if it reads as the prefix, a body without underscore, an underscore and text that decodes to the MAC of that body, the body decodes to the payload and the time is in its window; no other signature is ever accepted |
| RelayToken.VerdictExactly | cmd/relay-router/byo_token.go:84-116 | which error every token that reads so gets: bad signature, malformed, expired or not yet valid |
| RelayToken.MintsExactly | cmd/relay-router/byo_token.go:61-76 | a payload is minted if and only if its three names are there and it expires after its issue; the token carries its encoding and the MAC of that |
| RelayToken.SplitBody | cmd/relay-router/byo_token.go:84-99 | a minted token whose body contains an underscore never verifies: what follows it is too long to be a signature |
| RelayToken.MintedTokenVerifies | cmd/relay-router/byo_token.go:61-116 | a minted token verifies back to its payload if and only if the time is in its window and its body has no underscore; outside the window the error is the expected one |
| RelayToken.AsciiTokenVerifies | cmd/relay-router/byo_token.go:61-116 | for ASCII payload JSON inside the window the condition is on every third byte only |
| Quota.WorkspaceQuota.constructor | cmd/relay-router/byo_quota.go:37-45 | a fresh quota has no workspace |
| Quota.WorkspaceQuota.Prune | cmd/relay-router/byo_quota.go:133-142 | exactly the buckets that started inside the window remain, in order |
| Quota.WorkspaceQuota.Admit | cmd/relay-router/byo_quota.go:64-100 | admitted exactly when the requests live at the first clock reading are below the cap, and counted at the second reading; a refusal records nothing, and without a cap nothing is counted |
| Quota.WorkspaceQuota.RecordBytes | cmd/relay-router/byo_quota.go:104-110 | the bytes join the last minute's bucket or open a new one at the second clock reading, in this workspace only |
| Quota.WorkspaceQuota.BytesLeft | cmd/relay-router/byo_quota.go:115-131 | the cap less the live bytes, never negative; unlimited without a cap |
| QuotaBound.CallKeepsLedger | cmd/relay-router/byo_quota.go:64-142 | every call, with any delay between its two clock readings, keeps the live buckets equal to the recorded history regrouped by live bucket |
| QuotaBound.AdmissionsAreBounded | cmd/relay-router/byo_quota.go:64-142 | over any run any interval of the window's length holds at most twice the cap |
| QuotaBound.LiveTotalsAreHistory | cmd/relay-router/byo_quota.go:64-142 | the request and byte totals compared with the caps are those of the history restricted to live buckets |
| QuotaBound.WorkspacesAreIndependent | cmd/relay-router/byo_quota.go:47-62 | in any mixed run a workspace's counters are those of its own calls alone |
| QuotaExact.TwiceTheCapIsReached | cmd/relay-router/byo_quota.go:64-100 | for every cap and every window of at least two ticks, a run that admits twice the cap within one window |
| QuotaExact.CapHoldsExactly | cmd/relay-router/byo_quota.go:64-142 | all runs keep all intervals of a positive length within the cap if and only if the length is at most the window less a minute plus one tick |
| QuotaExact.CapHoldsExactlyAtOnce | cmd/relay-router/byo_quota.go:64-142 | for runs whose calls read the clock at one time, if and only if the length is at most the window less the last tick of its first minute |
| Compaction.FindProtected | cmd/relay-router/agedarg.go:123-148 | the backward scan with early exit lists as many calls as the window holds or there are, and every listed call is later than every unlisted one |
| Compaction.StubAgedCalls | cmd/relay-router/agedarg.go:239-303 | fails exactly when an unprotected entry is not an object; else each unprotected prefixed call is stubbed, the rest kept, and the newly stubbed ones counted |
| Compaction.RewriteAll | cmd/relay-router/agedarg.go:150-179 | the in-place pass rewrites every message by its own share of the aged calls and counts all changes |
| Compaction.Compact | cmd/relay-router/agedarg.go:101-190 | body and count of a whole pass, with every early return, given the pre-filter's verdict |
| CompactionLaws.CallDiffersInArguments | cmd/relay-router/agedarg.go:239-303 | a stubbed call keeps every field, its function keeps every field but the arguments, which are the note; any other call is unchanged |
| CompactionLaws.WantedExactly | cmd/relay-router/agedarg.go:210-232 | a call is meant if and only if it is an object whose function is an object whose name is a string with the prefix, and counts as stubbed exactly when its arguments are the note |
| CompactionLaws.MessageDiffersInCalls | cmd/relay-router/agedarg.go:150-179 | a rewritten message keeps every field but its tool calls, and their number |
| CompactionLaws.CompactionIsExact | cmd/relay-router/agedarg.go:123-182 | the fate of every call of every history by its flattened position: stubbed only outside the window and only in a message with no malformed aged entry |
| CompactionLaws.RewritesExactly | cmd/relay-router/agedarg.go:239-303 | a message is changed if and only if it has an aged prefixed call that is not a stub yet and only objects among its aged entries |
| CompactionLaws.StubsExactly | cmd/relay-router/agedarg.go:123-190 | an unfiltered pass stubs something if and only if some message of the body is of that kind, by its own share of the calls outside the window |
| CompactionLaws.StubCountIsDifferences | cmd/relay-router/agedarg.go:150-182 | the reported count is the number of calls that differ between input and output |
| CompactionLaws.CompactedBody | cmd/relay-router/agedarg.go:168-190 | a pass changes the messages of a body and nothing else |
| CompactionLaws.CompactIsIdempotent | cmd/relay-router/agedarg.go:101-190 | a second pass over any compacted chat body returns it unchanged and reports zero |
| CompactionLaws.IncrementalExactly | cmd/relay-router/agedarg.go:150-179 | compacting, appending and compacting again equals compacting once if and only if no message with an aged unstubbed prefixed call and only objects among its aged entries has a non-object entry that ages later |
| CompactionLaws.CompactIsIncremental | cmd/relay-router/agedarg.go:101-190 | the same for whole bodies and the router's own window |
| CompactionLaws.LateMalformedHappens | cmd/relay-router/agedarg.go:173-175 | a message for which the exception occurs |
| CompactionFilter.MentionsExactly | cmd/relay-router/agedarg.go:107 | whatever the blanks between its tokens, the text of a body contains a quote followed by the prefix if and only if some string literal of it spells the prefix at its start or behind a quote inside it |
| CompactionFilter.LiteralReads | cmd/relay-router/agedarg.go:110-121 | however each character of a name is written in a literal, as itself, by a letter after a backslash or by its code point, the literal reads back as the name |
| CompactionFilter.BareReads | cmd/relay-router/agedarg.go:110-121 | null, true and false read as themselves and every other bare token as a number |
| CompactionFilter.CompactText | cmd/relay-router/agedarg.go:101-190 | a pass over a body as sent stubs something if and only if some message has a call to stub and some literal spells the prefix out; otherwise it returns the body; where the prefix is never escaped it does what the unfiltered pass does |
| CompactionFilter.FilterLosesExactly | cmd/relay-router/agedarg.go:101-109 | the pre-filter changes the outcome if and only if some message of the body has a call to stub and no string literal of it spells the prefix out |
| CompactionFilter.PlainPrefixesLoseNothing | cmd/relay-router/agedarg.go:101-109 | it never does for bodies that spell the prefix of every string decoding to it without escapes |
| CompactionFilter.EscapedNameIsLost | cmd/relay-router/agedarg.go:101-109 | for every prefix outside the field names, a one-call body with its first letter escaped that the pass would stub and the pre-filter skips |
| CompactionReference.FlatList | scripts/1949-aged-arg-replay.py:242-256 | every call once, in flattened order |
| CompactionReference.Reference | scripts/1949-aged-arg-replay.py:242-270 | the script's one-call-at-a-time loop reaches the history with all aged calls stubbed |
| CompactionReference.AgreesWithReference | scripts/1949-aged-arg-replay.py:242-270 | router and script agree on a history if and only if no message has both an aged unstubbed prefixed call and a non-object aged entry |
| Fleet.RelayFleet.constructor | cmd/relay-router/fleet.go:112-120 | a fresh fleet is empty |
| Fleet.RelayFleet.UpdatePeers | cmd/relay-router/fleet.go:125-144 | afterwards exactly the listed relays exist, kept ones with all their state and the last listed record, new ones empty |
| Fleet.RelayFleet.HasHealthyRelay | cmd/relay-router/fleet.go:444-448 | true exactly when some relay is eligible |
| Fleet.RelayFleet.EligibleRelays | cmd/relay-router/fleet.go:217-232 | only eligible relays are listed, and some are exactly when some exist |
| Fleet.RelayFleet.SelectRelay | cmd/relay-router/fleet.go:152-213 | succeeds exactly when some relay is eligible, and returns the candidate whose cumulative-weight interval the draw falls in |
| Fleet.RelayFleet.Pick | cmd/relay-router/fleet.go:202-212 | the index returned is that of the interval holding the scaled draw; the fall-through is never needed |
| Fleet.CandidatesExactly | cmd/relay-router/fleet.go:161-197 | the candidates are the eligible relays of the best tier: AWS alone if any is eligible, no GCP beside an eligible OCI |
| Fleet.SlotIsUnique | cmd/relay-router/fleet.go:202-212 | a draw lies in one candidate's interval only |
| Fleet.SharesAreWeights | cmd/relay-router/fleet.go:202-212 | each candidate is drawn on an interval of length its weight over the total weight |
| Fleet.WeightsExactly | cmd/relay-router/fleet.go:269-284 | AWS weighs ten times OCI, OCI a hundred times any other, a suspect relay a tenth of its like, and exactly the unhealthy ones nothing |
| Fleet.SuspectsAreDrawnATenth | cmd/relay-router/fleet.go:202-212 | among the candidates a suspect relay is drawn on an interval a tenth as long as that of a trusted one of its provider |
| Fleet.HealthExactly | cmd/relay-router/fleet.go:234-257 | who decides a relay's state: a draining controller, then failures, then successes if they have a threshold, else the controller |
| Fleet.RelayFleet.RecordRequest | cmd/relay-router/fleet.go:287-301 | one more request; a 429 is counted, dated at its own clock reading, and the window pruned at a later one; unknown relays change nothing |
| Fleet.RelayFleet.Relay429Rate | cmd/relay-router/fleet.go:489-503 | windowed 429s over all requests ever, after pruning |
| Fleet.RelayFleet.RecordHealthCheck | cmd/relay-router/fleet.go:337-355 | other relays are untouched, no relay gets two running streaks, enough failures make this one ineligible, and after a success it is eligible exactly when it is neither draining nor marked nor still listed unhealthy with too few successes |
| Fleet.StreaksDecide | cmd/relay-router/fleet.go:234-257 | from any state as many failed checks in a row as the threshold make a relay ineligible, and as many passed ones make it eligible exactly when it is neither draining nor marked |
| Fleet.RelayFleet.RecordStreamStart | cmd/relay-router/fleet.go:304-310 | ending the stream again restores the fleet; no other relay and no eligibility changes |
| Fleet.RelayFleet.RecordStreamEnd | cmd/relay-router/fleet.go:313-322 | starting a stream again restores the fleet if one was open; no other relay and no eligibility changes |
| Fleet.RelayFleet.Mark429Draining | cmd/relay-router/fleet.go:358-366 | a known relay is ineligible afterwards, every other one as it was |
| Fleet.RelayFleet.Mark429Suspect | cmd/relay-router/fleet.go:369-376 | the probe count reported with the 429 rate grows by one and the rate stays; no other relay and no eligibility changes |
| Fleet.RelayFleet.Clear429State | cmd/relay-router/fleet.go:382-392 | rate and probe count read zero, and the relay is eligible again exactly when it is neither draining nor unhealthy; every other one is as it was |
| Fleet.WithinCounts | cmd/relay-router/fleet.go:396-405 | pruning keeps every time after the cutoff as often as it was there, and no other |
| Draining.MarkClearedExactly | cmd/relay-router/detector.go:43-95 | a step takes away the 429 mark if and only if it reports a response other than 429, ends a passing probe, or drops the relay |
| Draining.MarkedStaysOut | cmd/relay-router/detector.go:43-137 | once marked with no request in flight, no run that keeps the relay listed clears the mark or selects it |
| Draining.CountedExactly | cmd/relay-router/proxy.go:207-208 | a step makes the stream counter wrong if and only if it drops the relay under open streams or opens one on a dropped relay |
| Draining.StreamsAreCounted | cmd/relay-router/fleet.go:304-322 | in every run that keeps the relay listed its counter equals its open streams, so the clamp never acts |
| Draining.AlwaysFiled | cmd/relay-router/fleet.go:125-144 | in every run relays are filed under their own IDs |
| Draining.StreaksExclude | cmd/relay-router/fleet.go:333-355 | in every run no relay ever has a streak of successes and a streak of failures at once |
| Draining.DrawnIsSelectable | cmd/relay-router/fleet.go:152-213 | whatever the map order and draw, a selection in such a fleet is an eligible relay of the best tier |
| Draining.SelectableIsDrawn | cmd/relay-router/fleet.go:152-213 | and every eligible relay of the best tier is returned for some draw, whatever the map order |
| Probes.ProbesNeverPassOne | cmd/relay-router/detector.go:43-108 | while calls for a relay do not overlap its probe counter stays at most one and only the rate test marks it |
| Probes.TwoAtATimeDrain | cmd/relay-router/detector.go:43-108 | from any state in which a relay is selectable, unprobed and has no call in progress, a run of four calls, never more than two of them overlapping, drains it by the counter whatever its rate |
| Detector.StormExactly | cmd/relay-router/detector.go:99-108 | an uninterrupted storm check marks a listed relay if and only if three probes failed or its 429s in the window reach the rate times its requests, and the reason says which |
| Detector.WatchExactly | cmd/relay-router/detector.go:126-137 | the periodic check marks it if and only if the second holds |
| Detector.AnswerClears | cmd/relay-router/detector.go:43-50 | a response other than 429 ends a relay's 429 history and its probe record, and nothing else |
| Detector.KnownStormIgnored | cmd/relay-router/detector.go:52-68 | a 429 from a relay already probed, not listed or without endpoint changes nothing |
| Detector.FirstStormExactly | cmd/relay-router/detector.go:43-108 | a first 429: a probe that cannot be sent leaves only its record, one that passes clears relay and record, one that fails adds to the count and marks the relay exactly under the storm condition |
| Detector.UnsentLeavesNothing | cmd/relay-router/proxy.go:190-200 | a request that cannot be built leaves nothing |
| Detector.UnreachableIsFailedCheck | cmd/relay-router/proxy.go:207-226 | a request whose relay cannot be reached is one failed check and leaves no stream |
| Detector.HungUpLeavesNothing | cmd/relay-router/proxy.go:207-219 | one whose client hung up leaves nothing |
| Detector.AnswerIsRecorded | cmd/relay-router/proxy.go:207-251 | an answered one is recorded under its status, a 429 dated and the window pruned, with its stream still open |
| Detector.TasksStart | cmd/relay-router/detector.go:126-131 | a request starts exactly on a selectable relay and a periodic check exactly on a listed relay without a mark, and starting either changes nothing else |
| Detector.UpdatesMayCome | cmd/relay-router/fleet.go:125-144 | a peer list or a health check may come in any state; the first leaves exactly its relays listed |
| Responses.TotalsCountResponses | cmd/relay-router/fleet.go:287-301 | in every run a relay's counters are the responses, and the 429s among them, reported since it was listed |
| Responses.WindowRemembers | cmd/relay-router/fleet.go:382-405 | in every run its window holds each date as often as there are 429s of that date since it was listed that no clear and no pruning has taken |
| EnvelopeCache.Cache.constructor | cmd/relay-router/byo_cache.go:49-54 | both maps start empty |
| EnvelopeCache.Cache.Apply | cmd/relay-router/byo_cache.go:60-76 | a Secret with workspace, provider and envelope is served under its labels at once; every other key, and every key if it lacks one of them, is served as before |
| EnvelopeCache.Cache.Evict | cmd/relay-router/byo_cache.go:80-87 | the key of a known name is no longer served and the name is gone; every other key is served as before |
| EnvelopeCache.Cache.Envelope | cmd/relay-router/byo_cache.go:90-95 | whenever the cache agrees with the live Secrets, the answer is the envelope of the live Secret with those labels, or nothing exactly when there is none |
| EnvelopeCache.ServesExactly | cmd/relay-router/byo_cache.go:60-95 | the answers after any event: a Secret with workspace, provider and envelope is served under its labels, a deleted name's key no more, every other as before |
| EnvelopeCache.AgreesExactly | cmd/relay-router/byo_cache.go:60-87 | with labels shared or not, an event keeps cache and live Secrets in agreement if and only if it takes no live Secret's labels or envelope without deleting it, leaves no labels that nothing else carries, clashes with no Secret of the same labels, and deletes none of several |
| EnvelopeCache.RunAgreesExactly | cmd/relay-router/byo_cache.go:60-87 | over any run of events cache and live Secrets agree after each if and only if every event is of that kind |
| EnvelopeCache.ServesTheLiveSecrets | cmd/relay-router/byo_cache.go:60-95 | with stable unshared labels, after any events each key serves exactly its live Secret's envelope or nothing, and names correspond one to one with cached keys |
| EnvelopeCache.RelabelledEnvelopeOutlivesItsSecret | cmd/relay-router/byo_cache.go:60-87 | relabelling and then deleting any Secret leaves its first envelope served |
| EnvelopeCache.SharedLabelsEvictTogether | cmd/relay-router/byo_cache.go:60-87 | of any two Secrets with the same labels, deleting one stops the other being served |
| JsonWalk.WalkPrinted | cmd/workspace-agentd/board_file_params.go:266-302 | over any printed value, in any place a value may stand, the walk ends just behind it if all keys are distinct at every depth, and with the duplicate-key error otherwise |
| JsonWalk.WalkSound | cmd/workspace-agentd/board_file_params.go:266-302 | whatever the walk accepts is a printed value with distinct keys at every depth |
| JsonWalk.AcceptsExactly | cmd/workspace-agentd/board_file_params.go:262-311 | the check passes a lexeme sequence if and only if it is one document with distinct keys at every depth and nothing after it |
| BoardPayload.Walker.constructor | cmd/workspace-agentd/board_file_params.go:263 | the decoder starts at the top of the document |
| BoardPayload.Walker.WalkValue | cmd/workspace-agentd/board_file_params.go:265-302 | the recursive loop with its seen sets terminates and leaves decoder and error as the walk defines |
| BoardPayload.RefuseDuplicateKeys | cmd/workspace-agentd/board_file_params.go:262-311 | no error if and only if the data is such a document |
| BoardPayload.OneReading | cmd/workspace-agentd/board_file_params.go:228-255 | two documents with the same lexemes are the same document |
| BoardPayload.MapLosesNothingExactly | cmd/workspace-agentd/board_file_params.go:228-255 | the decoded map is as large as the field list if and only if no name repeats |
| BoardPayload.PayloadExactly | cmd/workspace-agentd/board_file_params.go:228-255 | a payload decodes to a map if and only if the data is one object with distinct keys at every depth and the map has each field with its value and nothing else |
| EventbusHealth.Collector.constructor | cmd/workspace-agentd/eventbus_metrics.go:205-207 | no series, verdict or log line at the start |
| EventbusHealth.Collector.ObserveAll | cmd/workspace-agentd/eventbus_metrics.go:246-281 | every group of a snapshot in turn sets its series and logs its transition; the names seen are collected |
| EventbusHealth.Collector.DropVanished | cmd/workspace-agentd/eventbus_metrics.go:282-296 | exactly the groups of the last snapshot that are absent now lose series and verdict |
| EventbusHealth.Collector.Collect | cmd/workspace-agentd/eventbus_metrics.go:218-297 | one tick over the consumer groups, failed or not, as a function of the state before it |
| EventbusHealth.HealthTellsTheLastSnapshot | cmd/workspace-agentd/eventbus_metrics.go:180-297 | after any ticks the series and verdicts are those of the last good snapshot, and each group was warned about once per change into a stall reason and reported recovered once per return to health |
| EventbusHealth.VerdictsExactly | cmd/workspace-agentd/eventbus_metrics.go:180-190 | a group without consumers and something waiting is deserted; else 300 seconds idle is stale, else a lag of 100 is a backlog, else it is healthy |
| EventbusHealth.StreakCountsFailures | cmd/workspace-agentd/eventbus_metrics.go:222-231 | over any ticks the streak is the failures since the last good probe, and each streak logs its first and every tenth |
| EventbusHealth.FailuresOnlyLog | cmd/workspace-agentd/eventbus_metrics.go:222-230 | a streak of failed probes changes nothing but the streak and the log, and logs one line plus one per ten |
| Utf8.FixExactly | cmd/workspace-agentd/dev_preview_headers.go:242-246 | a JSON encoder returns a byte string unchanged if and only if it is well-formed UTF-8 |
| Utf8.ValidExactly | cmd/workspace-agentd/dev_preview_headers.go:242-246 | well-formed means spelling a sequence of Unicode scalar values by section 3 of RFC 3629 |
| Utf8.FixSpellsRunes | cmd/workspace-agentd/dev_preview_headers.go:242-246 | what reads back spells the scalar values a reader finds, U+FFFD for every byte that starts none, and is always well-formed |
| HeaderStore.ValidateName | cmd/workspace-agentd/dev_preview_headers.go:288-305 | the first rule a name breaks, or its canonical form |
| HeaderStore.Validate | cmd/workspace-agentd/dev_preview_headers.go:265-282 | the first rule a name and value break, or the canonical name |
| HeaderStore.CheckExactly | cmd/workspace-agentd/dev_preview_headers.go:265-305 | a pair passes if and only if the name has 1 to 128 bytes, none a blank, control or delimiter, and is not reserved, and the value 1 to 4096 bytes, none a control but the tab |
| HeaderStore.StoredBytes | cmd/workspace-agentd/dev_preview_headers.go:309-327 | no stored value holds CR, LF, NUL or DEL, and no stored name a blank, colon or line break |
| HeaderStore.CheckGives | cmd/workspace-agentd/dev_preview_headers.go:265-305 | whatever validates is stored under a canonical, unreserved token of at most 128 characters with 1 to 4096 valid value bytes |
| HeaderStore.CanonIgnoresCaseExactly | cmd/workspace-agentd/dev_preview_headers.go:300 | two names have one canonical form if and only if they differ in letter case only |
| HeaderStore.NeverReservedInAnyCase | cmd/workspace-agentd/dev_preview_headers.go:57-71 | a storable name equals no reserved name in any letter case |
| HeaderStore.NeverWebSocketInAnyCase | cmd/workspace-agentd/dev_preview_headers.go:301-303 | a storable name opens with the WebSocket prefix in no letter case |
| HeaderRuns.HeaderFile.constructor | cmd/workspace-agentd/dev_preview_headers.go:113-139 | at boot the valid entries of the text that parses, up to the cap and in the order of its names, are in memory; a missing or unreadable file gives none |
| HeaderRuns.HeaderFile.Set | cmd/workspace-agentd/dev_preview_headers.go:144-164 | every refusal, and a write that stops at any step, leaves memory and file alone; a success stores the value under the canonical name and every other name as before, and rewrites the file |
| HeaderRuns.HeaderFile.Clear | cmd/workspace-agentd/dev_preview_headers.go:170-192 | the same for removing one name or all: on success that name is gone and every other is as before |
| HeaderRuns.HeaderFile.Persist | cmd/workspace-agentd/dev_preview_headers.go:242-260 | wherever opening, writing, closing or renaming the temporary file stops, the state file holds its old text or a text that reads back as the new entries, and the new one exactly on success |
| HeaderRuns.AlwaysSound | cmd/workspace-agentd/dev_preview_headers.go:113-192 | from any file and any run of sets, clears, failed writes and restarts there are at most 20 entries, all of storable names and valid values |
| HeaderRuns.AllOrNothing | cmd/workspace-agentd/dev_preview_headers.go:144-192 | a success leaves the file encoding memory; a refusal or a write stopped at any step changes neither |
| HeaderRuns.ChangeExactly | cmd/workspace-agentd/dev_preview_headers.go:144-192 | when a set or clear takes effect, and what every single name holds after it |
| HeaderRuns.LastWordHolds | cmd/workspace-agentd/dev_preview_headers.go:144-192 | over any sets, clears, refusals and failed writes, from any store, a name holds what the last operation that decided it says |
| HeaderRuns.LastWordSurvives | cmd/workspace-agentd/dev_preview_headers.go:113-192 | the same through restarts, from a store that its file holds and with well-formed values |
| HeaderRuns.FileMatchesExactly | cmd/workspace-agentd/dev_preview_headers.go:144-192 | after a success file and memory are equal if and only if every value is well-formed UTF-8 |
| HeaderRuns.ReloadExactly | cmd/workspace-agentd/dev_preview_headers.go:113-139 | reloading a persisted store gives the same entries, in whatever order its names are visited, if and only if every value is well-formed UTF-8 |

## Left out

- HPKE, HMAC-SHA256 and JSON marshalling are parameters: derivation gives one public key per private key, a MAC is 32 bytes, a payload's JSON is non-empty and reads back.
- Deletion or corruption of the keypair Secret from outside, and the restart of a fresh replica on a lineage lost that way; the recovery path is modelled, but only stale deliveries lead into it.
- Machine widths: generations, counters and times are unbounded, and durations do not saturate; a keyID is its generation number.
- KeyForks.SingleLineageExactly: takes private keys to be generated at most once, and speaks of states with the same writes, which restarts and stale deliveries lead to.
- KeyManager.Manager.ApplyLoaded: states the load that no other call interrupts between its read lock and its write lock; the interrupted one is `Install` on its own, as `KeyRetention` and the two separate steps of `KeyLineage` use it.
- RedactionSurvival.NothingRegisteredSurvives: needs replacements whose first and last byte no value contains and that contain no value, as the code's fixed replacement text has for base64 keys.
- Compaction.Compact: takes the verdict of the byte pre-filter as an argument; `CompactionFilter.CompactText` computes it from the text.
- Byte forms of JSON in compaction: `CompactionFilter` models whitespace and the spelling of strings in the request, with each `\u` escape one character and no surrogate pairs; key order and HTML escaping of the output are not modelled, and a stub spelled with other escapes would be counted as changed by the code's byte comparison. A null array reads as an empty one.
- The reference script's statistics, prompts and scoring in scripts/1949-aged-arg-replay.py.
- Floating-point rounding in relay selection: weights and draws are reals.
- EventbusHealth.Collector.Collect: sets the per-group series only; the stream-level gauges of each tick are plain assignments from the snapshot.
- Egress bytes, probe and drain timestamps and metrics text in the fleet; the periodic check is modelled relay by relay, with a snapshot of its own for each.
- Lexing of JSON text into lexemes and the decoder's nesting limit; escapes and invalid UTF-8 in keys are resolved before the walk.
- The header file's JSON text is a parameter of the model: any marshalling that reads back, up to the replacement of malformed UTF-8.
- Sorting of the header file's names is an input of the load; the kept entries are proved sound for every order.
- The best-effort model catalog of an envelope Secret is taken as already decoded.
- HTTP forwarding, header copying, fallback, informers, Kubernetes clients and process drain: I/O plumbing.
- cmd/migrate-kek and cmd/rotate-kek re-encrypt stored secrets under a new key through a database; board schemas, tool dispatch and the control socket route typed requests to handlers; repolint checks the repository's own layout; controllers reconcile Kubernetes objects; the frontend shows them.
