# Verified model of a distributed validator node

A Dafny model of the stateful and byte-level core of the node, with proofs about every run, every
input and every byte string rather than about single calls. `dafny verify dfyconfig.toml` checks
everything.

| files | what they model |
|---|---|
| `Slots`, `SchedulerModel`, `SchedulerActor`, `SchedulerInvariants`, `SchedulerRuns`, `SchedulerHistory`, `SchedulerReorgs`, `SchedulerDuties` | the duty scheduler: its two maps, resolves that fail half-way, reorgs, trimming, lookups |
| `Ticker` | the slot ticker and the duty gater over one clock |
| `DurationText`, `DurationFormat`, `DurationParse`, `DurationLaws`, `DurationUnits`, `DurationRounding` | Go-style durations: printer, parser, units, rounding |
| `Ssz`, `SszContainers`, `SszCodec`, `ParsigexCodec`, `WirePositions`, `PubKeyText`, `ParSigSet` | the versioned SSZ wire format, type recovery, partial-signature sets |
| `SigAgg` | threshold aggregation and the quorum formula |
| `Debugger`, `RoundTimer` | the bounded debug buffer, the eager round timer |
| `DefinitionHash`, `DefinitionHasher`, `DefinitionFields`, `DefinitionLaws`, `DefinitionSigning` | cluster definition hashing, setting, verifying and signing |

How it is set up:

- Stateful source objects are classes. Each method is proved equal to a function on values
  (`SchedulerActor.Actor` against `SchedulerModel`, and so on), and the laws are about those
  functions, so they hold of the methods.
- The scheduler's environment is arbitrary: an event is a ticked slot with any beacon answers to its
  two possible resolves, a reorg notice, or a lookup, and runs are any sequences of events. Slot
  arithmetic stays inside u64 (`ValidRun`; past it the source saturates and its slot iterator does
  not end). A resolve *fits* when each entry it offers lies in the requested epoch or is stored
  already (`ResolveFits`); a run is *fitting* when every resolve made in it fits. That is exactly what
  index agreement needs, and it is assumed only where the table says so. A run is *honest* when the
  beacon node answers each epoch request with duties of that epoch; the source filters earlier slots
  only, and `OutOfEpochBreaksIndex` is an answer it lets through. A run is *paced* when an epoch is
  attempted first or after its predecessor was resolved, and active validators are never empty. A
  *good* state satisfies the pairing and index invariants, as every state of a fitting run does.
- The ticker's clock is any sequence of non-negative delays between readings. An instant that cannot
  be represented ends the ticker, as the panic in the source does.
- The parser's one floating-point step is a parameter, assumed exact only where every f64 in it is an
  integer below 2^53. That covers all printed text; elsewhere it may be any function.
- Text is UTF-8 bytes; the printer's bytes are valid UTF-8, so the lossy conversion keeps them.
- The wire codec's JSON text and the signed-data types not listed in `ParsigexCodec` are arbitrary
  functions. BLS, EIP-712 and tree hashing are arbitrary functions too; the hash walker keeps the
  tree of calls made on it, with `index` opening a frame and `merkleize` closing the latest one.
- Laws of the form "the inverse" or "equal inputs" do not fix an order or a constant. `SchedulerDuties`,
  `DurationUnits`, `WirePositions` and `DefinitionFields` do: they state duty types, unit values, byte
  positions and field numbers as literals.
- `hide` statements keep proofs small. The hypotheses above are `requires` clauses; every lemma has a proof.

Where code and documentation differ, the model follows the code:

- `handle_chain_reorg` says it trims all duties; it trims those of the resolved epoch, and only for
  reorgs of a strictly earlier epoch. `SchedulerReorgs` has the exact condition, a run that shows the
  difference and what it means for later lookups.
- `decode_versioned_attestation` says it falls back to the legacy header when the offset does not
  match. For slots whose low 32 bits are 20 the offset does match by accident
  (`SszCodec.AttestationSurvivesIff`).
- The comment on `definition_hash` calls it unique to a definition. It is, as far as the version hashes
  the fields; the full hash of v1.0 leaves out the timestamp (`DefinitionLaws.TimestampFree`).

## Model

| member | source | states |
|---|---|---|
| Slots.NextEpoch | crates/core/src/types.rs:836-864 | stepping off the last slot of an epoch, and only that, enters the next epoch |
| SchedulerModel.FilterExact | crates/core/src/scheduler.rs:886-927 | the fetch filters fail exactly when a definition not before the slot names a known validator with another key, and otherwise keep exactly the definitions of known validators not before the slot |
| SchedulerModel.FindPubkeyIff | crates/core/src/scheduler.rs:895-899 | a key is found exactly when the first validator with the index has it, and none exactly when no validator has the index |
| SchedulerModel.FilterPositions | crates/core/src/scheduler.rs:886-921 | what the filters keep, in the order of the answer: exactly the positions with a definition not before the slot whose key is that of the first validator with its index |
| SchedulerModel.FilterFails | crates/core/src/scheduler.rs:886-921 | they fail exactly when a definition not before the slot names another key than that validator's, with the expected and actual key of the first one |
| SchedulerModel.StoreAllAppend | crates/core/src/scheduler.rs:545-562 | storing two batches of entries in turn is storing their concatenation |
| SchedulerActor.FetchDuties | crates/core/src/scheduler.rs:852-1050 | the three filter loops compute the filter, stopping at the first mismatch |
| SchedulerActor.Actor.SetDutyDefinition | crates/core/src/scheduler.rs:545-562 | adds a missing definition and one index entry, or changes nothing; says which |
| SchedulerActor.Actor.TrimDuties | crates/core/src/scheduler.rs:565-574 | the removal loop deletes exactly the listed duties and the list |
| SchedulerActor.Actor.HandleChainReorg | crates/core/src/scheduler.rs:334-346 | a reorg below the resolved epoch trims that epoch and marks nothing as resolved |
| SchedulerActor.Actor.GetDutyDefinition | crates/core/src/scheduler.rs:350-375 | the lookup with its four errors in order |
| SchedulerActor.Actor.StoreAttesters | crates/core/src/scheduler.rs:449-478 | the attester loop, aggregator duties only for new attester duties |
| SchedulerActor.Actor.StoreProposers | crates/core/src/scheduler.rs:481-501 | the proposer loop stores its entries in order |
| SchedulerActor.Actor.StoreSyncRow | crates/core/src/scheduler.rs:507-520 | the slot iterator visits every slot left in the epoch and stops; slots left in the epoch decrease |
| SchedulerActor.Actor.StoreSyncCommittee | crates/core/src/scheduler.rs:503-529 | one row of slots per sync-committee validator |
| SchedulerActor.Actor.ResolveDuties | crates/core/src/scheduler.rs:432-540 | the whole resolve, including what stays stored when a later request fails |
| SchedulerActor.Actor.ScheduleSlot | crates/core/src/scheduler.rs:379-429 | both resolves around the broadcasts, and the broadcasts as a sequence |
| SchedulerModel.BroadcastsExact | crates/core/src/scheduler.rs:387-422 | exactly the stored duties of the slot are broadcast, each once and in the order of the duty types |
| SchedulerInvariants.StoreAttestersPairs | crates/core/src/scheduler.rs:448-478 | on paired states the conditional attester loop equals a plain fold over attester and aggregator entries, and stays paired |
| SchedulerInvariants.TrimExact | crates/core/src/scheduler.rs:564-574 | where the index agrees, trimming removes exactly the stored duties of the epoch |
| SchedulerInvariants.TrimKeepsIndexed | crates/core/src/scheduler.rs:564-574 | trimming keeps the index in agreement |
| SchedulerRuns.ResolveShape | crates/core/src/scheduler.rs:432-540 | from a paired state, a resolve with active validators is one fold over what was offered before it finished or failed |
| SchedulerRuns.OfferedExactly | crates/core/src/scheduler.rs:448-529 | what a finished resolve offers, both ways, in terms of the raw beacon answers |
| SchedulerRuns.AttesterAggregatorPairing | crates/core/src/scheduler.rs:334-574 | after every run, whatever the beacon answers, attester and aggregator definitions of a slot are equal sets |
| SchedulerRuns.IndexAgreement | crates/core/src/scheduler.rs:334-574 | along every fitting run each stored duty has validators, occurs in its own epoch's list once per validator and in no other, and every listed duty is stored |
| SchedulerRuns.IndexAgreementIff | crates/core/src/scheduler.rs:334-574 | over whole runs with any beacon answers, the index agrees at every point exactly when every resolve that is made fits |
| SchedulerRuns.StepIndexedIff | crates/core/src/scheduler.rs:334-429 | from an agreeing state, one event keeps the index in agreement exactly when the resolves it makes fit |
| SchedulerRuns.ResolveIndexedIff | crates/core/src/scheduler.rs:432-574 | from an agreeing state, a resolve keeps the index in agreement exactly when each entry it offers lies in the requested epoch or is stored already |
| SchedulerRuns.HonestRunFits | crates/core/src/scheduler.rs:852-1050 | answers with duties of the requested epoch only always fit |
| SchedulerRuns.StoreAllGet | crates/core/src/scheduler.rs:542-562 | storing keeps what is there and otherwise takes the first definition offered |
| SchedulerRuns.ResolveGet | crates/core/src/scheduler.rs:432-540 | from a good state, the definition found for any duty and validator after a fitting resolve with active validators, whether it finishes or fails |
| SchedulerHistory.StepFate | crates/core/src/scheduler.rs:334-574 | from a good state, a fitting step leaves a stored definition unchanged exactly unless it trims that epoch |
| SchedulerHistory.DefinitionsStable | crates/core/src/scheduler.rs:531-574 | from any good state and over any fitting run, a definition is found unchanged as long as its epoch is not trimmed |
| SchedulerHistory.LookupWindow | crates/core/src/scheduler.rs:348-375 | after every run, whatever the beacon answers, a lookup succeeds exactly for a stored duty, other than a builder proposal, of the three newest resolved epochs, and then gives its non-empty set |
| SchedulerDuties.LookupErrors | crates/core/src/scheduler.rs:350-375 | which of the four errors a lookup gives, each exactly when, in terms of the resolved epoch |
| SchedulerHistory.ReorgSilencesLookups | crates/core/src/scheduler.rs:331-375 | after any run, a reorg below the resolved epoch makes every lookup fail until a resolve finishes |
| SchedulerHistory.FourEpochSpan | crates/core/src/scheduler.rs:531-574 | on fitting paced runs stored duties span at most the last resolved epoch, the two before it and a partly resolved next one |
| SchedulerHistory.ResolveSpanIff | crates/core/src/scheduler.rs:432-574 | from a good state, a fitting resolve ends inside the four-epoch bound exactly when every stored duty it does not trim lies in the window it moves to and so does its own epoch if it stores anything new |
| SchedulerHistory.FourEpochSpanIff | crates/core/src/scheduler.rs:379-574 | over fitting runs the bound holds after every resolve exactly when every resolve meets that condition |
| SchedulerHistory.IdleTicksKeepDuties | crates/core/src/scheduler.rs:442-446 | ticks without active validators never trim or add |
| SchedulerHistory.ResolveCovers | crates/core/src/scheduler.rs:448-529 | from a good state, a finished fitting resolve has a definition for every expected entry, each slot left in the epoch for sync-committee validators, and adds nothing unexpected |
| SchedulerDuties.ResolveStores | crates/core/src/scheduler.rs:448-529 | where nothing was stored, a finished fitting resolve stores exactly the first definition of the right answer that serves the validator at the slot: attester and aggregator duties from the attester answer, proposer duties from the proposer answer, sync contributions for every slot left in the epoch, no other type |
| SchedulerDuties.EveryPassingServed | crates/core/src/scheduler.rs:448-529 | after it every passing attester definition has an attester and an aggregator duty, every passing proposer definition a proposer duty, every passing sync-committee definition one contribution per slot left |
| SchedulerDuties.OnlyFourTypes | crates/core/src/scheduler.rs:448-529 | a finished fitting resolve adds duties of those four types only |
| SchedulerHistory.ResolveIdempotent | crates/core/src/scheduler.rs:432-562 | from a good state, repeating a finished fitting resolve with the same answers, from the same or a later slot of the epoch, changes nothing |
| SchedulerHistory.FirstResolveIndexedIff | crates/core/src/scheduler.rs:886-893 | in particular, a first resolve with active validators keeps agreement exactly when all it offered lies in the requested epoch |
| SchedulerHistory.OutOfEpochBreaksIndex | crates/core/src/scheduler.rs:886-893 | a concrete out-of-epoch answer that breaks the index |
| SchedulerReorgs.ReorgTrimsAllIff | crates/core/src/scheduler.rs:331-346 | from a good state, a reorg below the resolved epoch drops all duties exactly when none belongs to another epoch |
| SchedulerReorgs.ReorgedEpochKept | crates/core/src/scheduler.rs:331-346 | a run after which a reorg of an already resolved epoch leaves that epoch's own duty stored |
| SchedulerReorgs.StaleSurvivesReorg | crates/core/src/scheduler.rs:331-346 | from a good state, a definition of any epoch but the resolved one survives a reorg and then every fitting run that does not trim its epoch, whatever the later answers |
| SchedulerReorgs.StaleAfterReorg | crates/core/src/scheduler.rs:331-375 | an honest run over two slots with a reorg between, after which lookups return the definition from before the reorg although the later resolve was answered differently |
| SchedulerReorgs.IdleTicksExceedSpan | crates/core/src/scheduler.rs:442-446 | an honest run of consecutive slots, the later ones without active validators, that breaks the four-epoch bound |
| SchedulerReorgs.SkippedEpochsExceedSpan | crates/core/src/scheduler.rs:531-537 | an honest run with active validators and skipped epochs that breaks it as well |
| Ticker.SlotsElapsedAtLeast | crates/core/src/scheduler.rs:608-619 | counting slots in truncated milliseconds loses nothing |
| Ticker.RunTicker | crates/core/src/scheduler.rs:630-667 | the ticker loop sends what the round function says, for any clock |
| Ticker.TickerSound | crates/core/src/scheduler.rs:608-667 | slots are sent with their true start time, never before it and at most one slot late, numbers strictly increasing, skipped only when over; every round sends unless time runs out |
| Ticker.FirstEmission | crates/core/src/scheduler.rs:630-667 | the slot running at the start is sent first, unless it was over by then |
| Ticker.AllowsFrom | crates/core/src/gater.rs:96-141 | a duty is let through exactly from the start of the epoch that lies the allowed number of epochs before its own |
| Ticker.BroadcastTypesValid | crates/core/src/types.rs:68-98 | the broadcast duty types are exactly the valid ones |
| Ticker.BroadcastsPassGater | crates/core/src/scheduler.rs:388-422 | every duty broadcast for a sent slot passes the gater then and at all later times |
| DurationText.FormatLength | crates/cli/src/duration.rs:278-353 | every u64 prints to between 2 and 24 bytes |
| DurationFormat.FmtInt | crates/cli/src/duration.rs:384-399 | the digit loop writes the decimal digits in front of the text so far |
| DurationFormat.FmtFrac | crates/cli/src/duration.rs:358-379 | the fraction loop writes the trimmed decimals and returns the whole part |
| DurationFormat.FormatGoDuration | crates/cli/src/duration.rs:278-353 | the printed text of any duration, with every write inside the 32-byte buffer |
| DurationParse.LeadingInt | crates/cli/src/duration.rs:208-223 | the digit scan with its overflow check |
| DurationParse.LeadingFraction | crates/cli/src/duration.rs:227-253 | the fraction scan, digits after an overflow skipped |
| DurationParse.Segment | crates/cli/src/duration.rs:138-196 | an accepted segment consumes at least one byte and stays within Go's maximum |
| DurationParse.ParseGoDurationLoop | crates/cli/src/duration.rs:113-205 | the parser loop, its sign handling and all its errors |
| DurationLaws.FracTailValue | crates/cli/src/duration.rs:355-379 | printed decimals, scaled back, are the remainder, and appear exactly when it is not zero |
| DurationLaws.FracTailTrimmed | crates/cli/src/duration.rs:355-379 | printed decimals never end in a zero |
| DurationLaws.PrintParse | crates/cli/src/duration.rs:88-399 | printing then parsing gives back every duration up to 2^63-1 ns and is rejected above, through both entry points |
| DurationLaws.PrintInjective | crates/cli/src/duration.rs:278-353 | different durations print differently, over the whole u64 range |
| DurationLaws.NanosecondsParse | crates/cli/src/duration.rs:88-96 | the decimal digits of a number are nanoseconds over the whole u64 range and rejected beyond |
| DurationLaws.AcceptedInRange | crates/cli/src/duration.rs:179-201 | no accepted value exceeds 2^63-1 |
| DurationLaws.ParseAdditive | crates/cli/src/duration.rs:137-204 | for accepted strings without a sign, the second not the bare "0", parsing the concatenation gives the sum, or fails exactly when it is too large |
| DurationLaws.BareZeroNeedsUnit | crates/cli/src/duration.rs:124-173 | appending the bare "0" to any accepted unsigned string is a missing-unit error |
| DurationUnits.UnitTable | crates/cli/src/duration.rs:257-267 | the parser knows exactly eight units, with their bytes and nanoseconds written out |
| DurationUnits.OneSegment | crates/cli/src/duration.rs:137-204 | what any text of one segment with at least one digit parses to, with or without decimals, known unit or not, in range or not |
| DurationUnits.FractionReads | crates/cli/src/duration.rs:227-253 | decimals are read up to the longest run within 2^63-1; the rest is skipped |
| DurationUnits.UnitValues | crates/cli/src/duration.rs:137-204 | a whole number of any unit is that many of its nanoseconds, or refused past 2^63-1 |
| DurationUnits.OtherUnits | crates/cli/src/duration.rs:169-173 | any other unit text is unknown |
| DurationUnits.UnitFractions | crates/cli/src/duration.rs:179-196 | after a whole part, decimals of every unit are exact as long as they divide it |
| DurationUnits.HourAndAHalf | crates/cli/src/duration.rs:179-196 | "1.5h" is 5400 seconds |
| DurationUnits.NoDigits | crates/cli/src/duration.rs:157-160 | a point without digits is refused |
| DurationUnits.Signs | crates/cli/src/duration.rs:117-135 | a plus changes nothing, a minus is refused except before the bare zero |
| DurationUnits.FormatCanonical | crates/cli/src/duration.rs:278-353 | the printed form: largest unit with a whole part below a second; hours, minutes below sixty, seconds below sixty from there on; decimals without trailing zeros on the last number only |
| DurationRounding.RoundIsHalfUp | crates/cli/src/duration.rs:33-37 | above a second and where the cast fits, truncating to milliseconds first still is half-up rounding to 10 ms |
| DurationRounding.RoundsHalfUp | crates/cli/src/duration.rs:32-53 | in every branch the result is the nearest multiple of the branch's unit, the greater of two, where the cast fits |
| DurationRounding.RoundErrorIff | crates/cli/src/duration.rs:32-53 | rounding errs by at most half its unit exactly when the cast to u64 loses nothing |
| DurationRounding.RoundIdempotentIff | crates/cli/src/duration.rs:32-53 | for every duration, rounding twice is rounding once exactly when it is at most a second or the cast lands on at most 1000 ms or a multiple of 10 ms |
| DurationRounding.RoundIdempotent | crates/cli/src/duration.rs:32-53 | in particular, wherever the cast to u64 fits, rounding twice is rounding once |
| DurationRounding.RoundNotIdempotent | crates/cli/src/duration.rs:32-53 | a duration that rounds to 1004 ms and then to 1000 ms |
| DurationRounding.RoundMonotoneIff | crates/cli/src/duration.rs:32-53 | rounding keeps order up to a duration, across all branches, exactly when the cast to u64 fits there |
| DurationRounding.RoundOutOfOrder | crates/cli/src/duration.rs:32-53 | two durations that rounding puts out of order |
| DurationRounding.RoundWraps | crates/cli/src/duration.rs:35-37 | the shortest duration whose rounding wraps, and that it wraps to 4 ms |
| Ssz.LowHalf | crates/ssz/src/decode.rs:16-36 | the first four bytes of a u64 are its low 32 bits |
| WirePositions.IntegerBytes | crates/ssz/src/encode.rs:8-16 | byte i of an integer has the weight of the ith power of 256 |
| WirePositions.BitPositions | crates/ssz/src/types.rs:288-355 | bit i of a list is bit i mod 8, least significant first, of byte i/8; the sentinel follows the last one and nothing follows it |
| Ssz.DecodeEncodedBits | crates/ssz/src/types.rs:288-355 | a bit list of any length survives its sentinel encoding |
| Ssz.EncodeDecodedBits | crates/ssz/src/types.rs:288-355 | every accepted bit-list encoding is the one the encoder writes |
| SszContainers.AttestationInverse | crates/eth2api/src/spec/phase0.rs:359-405 | bytes decode to an attestation exactly when they are its encoding and its bits are within the limit, both layouts |
| SszContainers.AggregateInverse | crates/eth2api/src/spec/phase0.rs:434-456 | the same for signed aggregates |
| WirePositions.AttestationBytes | crates/eth2api/src/spec/phase0.rs:359-405 | the byte position of every field of an attestation in both layouts, offsets written out |
| WirePositions.AggregateBytes | crates/eth2api/src/spec/phase0.rs:434-456 | the same for signed aggregates |
| WirePositions.SyncMessageBytes | crates/eth2api/src/spec/altair.rs:100-113 | the same for sync-committee messages |
| SszCodec.EncodeVersionedAttestation | crates/core/src/ssz_codec.rs:210-231 | the buffer built for both header forms, and both encoding errors |
| SszCodec.OffsetIsSlot | crates/core/src/ssz_codec.rs:247-260 | without an index, the bytes read as the long header's offset are the slot's low half |
| SszCodec.AttestationSurvivesIff | crates/core/src/ssz_codec.rs:210-338 | any versioned attestation survives exactly when version and payload agree, the bits fit, and it has an index or its slot's low 32 bits are not 20 |
| SszCodec.SlotTwentyIsLost | crates/core/src/ssz_codec.rs:236-245 | a concrete attestation that does not come back |
| SszCodec.AttestationCanonical | crates/core/src/ssz_codec.rs:233-288 | every accepted byte string is the encoding of what it decodes to |
| SszCodec.AggregateSurvivesIff | crates/core/src/ssz_codec.rs:349-416 | a versioned aggregate survives exactly when version and payload agree and the bits fit |
| WirePositions.HeaderBytes | crates/core/src/ssz_codec.rs:210-231 | the header of a versioned attestation byte by byte: each fork's number, the validator index, the two offsets |
| WirePositions.AggregateHeaderBytes | crates/core/src/ssz_codec.rs:349-416 | the header of a versioned aggregate |
| WirePositions.SurvivesInNumbers | crates/core/src/ssz_codec.rs:210-338 | the condition for survival with the bit limits and the lost slots as numbers |
| WirePositions.AttestationErrors | crates/core/src/ssz_codec.rs:236-288 | which error the attestation decoder gives, and when |
| WirePositions.AggregateErrors | crates/core/src/ssz_codec.rs:349-416 | which error the aggregate decoder gives |
| ParsigexCodec.AcceptedFirstBytes | crates/core/src/parsigex_codec.rs:192-257 | the first byte of anything each decoder accepts, so a raw form is never taken for a versioned one or the reverse |
| ParsigexCodec.JsonReachesParser | crates/core/src/parsigex_codec.rs:176-210 | for attester and aggregator duties, what looks like JSON is never taken by an SSZ decoder |
| WirePositions.NotTaken | crates/core/src/parsigex_codec.rs:176-270 | bytes no decoder of the three duties takes reach the JSON parser exactly when their first byte that is not whitespace is an opening brace, and are refused as unsupported otherwise |
| ParsigexCodec.TypeAndValueRecovered | crates/core/src/parsigex_codec.rs:100-268 | attester, aggregator and sync-message data come back with the same concrete type and value exactly when recoverable |
| PubKeyText.DecodeHexIff | crates/core/src/types.rs:395-403 | text decodes to bytes exactly when it is their hex text up to case |
| PubKeyText.ParseKeyIff | crates/core/src/types.rs:395-471 | exactly the hex of 48 bytes, in any case and with or without a leading 0x, parses to that key |
| PubKeyText.ParseKeyErrors | crates/core/src/types.rs:395-471 | hex of another length is a length error, anything else an invalid string |
| PubKeyText.HexPositions | crates/core/src/types.rs:473-477 | two lower-case digits a byte, the high half first |
| PubKeyText.PrintedKeyParses | crates/core/src/types.rs:473-477 | the key parser undoes the key printer |
| ParSigSet.ToProto | crates/core/src/types.rs:783-794 | every member converted under its printed key, or the error of one that fails |
| ParSigSet.FromProto | crates/core/src/types.rs:796-814 | every text parsed and converted in string order, the last spelling of a key giving its member; otherwise the error of an empty message or of the first member refused |
| ParSigSet.BeforeIff | crates/core/src/types.rs:806-811 | the order of that walk: the first difference decides, a proper prefix comes first |
| ParSigSet.SendableIff | crates/core/src/types.rs:714-744 | which members make it through, by share index and data alone |
| ParSigSet.ConvertedCarries | crates/core/src/types.rs:714-732 | a converted member carries its share index, its encoded data and the signature of that data |
| ParSigSet.ConversionErrors | crates/core/src/types.rs:714-732 | which error a member that does not convert gives, each exactly when |
| ParSigSet.ReceivedMember | crates/core/src/types.rs:734-744 | what a received member gives, a negative index refused first |
| ParSigSet.SendAndReceive | crates/core/src/types.rs:783-814 | a set arrives unchanged exactly when it is not empty and every member is sendable |
| SigAgg.Threshold | crates/cluster/src/helpers.rs:204-213 | the smallest whole number not below two thirds, where its checked arithmetic does not panic |
| SigAgg.QuorumsOverlap | crates/cluster/src/helpers.rs:199-213 | two quorums share more indices than there can be faulty nodes |
| SigAgg.SignatureSetAndRead | crates/core/src/signeddata.rs:450-480 | for the modelled types with a signature, one that is set is read back, and setting the old one restores the data |
| SigAgg.DedupExact | crates/core/src/sigagg.rs:181-193 | the map given to BLS has every share index with its last signature, and fails exactly without one |
| SigAgg.TemplateExact | crates/core/src/sigagg.rs:221-235 | the template is the first share with a validator index that only attestations precede, else the first share |
| SigAgg.SuccessesOverlap | crates/core/src/sigagg.rs:172-197 | any two successful aggregations over share indices of the cluster counted index sets that overlap by more than the faulty nodes |
| SigAgg.HonestReachThreshold | crates/core/src/sigagg.rs:177-197 | distinct shares from all but the faulty nodes never fail for want of signatures |
| SigAgg.SuccessIs | crates/core/src/sigagg.rs:172-253 | for the modelled types, a success returns the template's data, validator index included, changed in nothing but the signature, which is what BLS combines from the last signature of every share index |
| SigAgg.FailureIs | crates/core/src/sigagg.rs:172-253 | which error is given, each of the first five exactly when |
| SigAgg.CallsExact | crates/core/src/sigagg.rs:164-168 | subscribers are called in order with the same output, up to and including the first that fails |
| SigAgg.Aggregator.New | crates/core/src/sigagg.rs:124-134 | a zero threshold is refused |
| SigAgg.Aggregator.AggregateShares | crates/core/src/sigagg.rs:172-253 | one validator's aggregation with its errors in order |
| SigAgg.Aggregator.FindTemplate | crates/core/src/sigagg.rs:221-235 | the scan loop finds the template |
| SigAgg.Aggregator.Aggregate | crates/core/src/sigagg.rs:146-169 | no subscriber hears anything unless every validator succeeded; then each in turn hears of all of them, until one fails |
| Debugger.DebugBuffer.AddInstance | crates/consensus/src/debugger.rs:96-114 | the addition and its pop loop; the empty-queue branch is never reached |
| Debugger.AddExactIff | crates/consensus/src/debugger.rs:104-113 | an addition keeps buffer and tracked size exact precisely when the size sum does not overflow, or overflows so far that everything is dropped |
| Debugger.LargeLimitFails | crates/consensus/src/debugger.rs:104-113 | for every limit from half of usize on, a history of two instances after which the buffer or its tracked size is wrong |
| Debugger.BufferIsLongestSuffixIff | crates/consensus/src/debugger.rs:96-114 | after every history the buffer is the longest suffix that fits and the tracked size is true, exactly for limits below half of usize |
| Debugger.BufferExactIff | crates/consensus/src/debugger.rs:96-114 | for any limit and history, this has held all along exactly when every addition was safe |
| RoundTimer.SubsequentTimeoutIff | crates/consensus/src/timer.rs:380-396 | the checked steps give 200 ns per round exactly when that fits i64 |
| RoundTimer.Timeouts | crates/consensus/src/timer.rs:332-366 | round 0 has no timeout, each further round adds a second up to the last u32 round, and only round 1 of a proposal differs, at 1.5 s |
| RoundTimer.EagerDoubleLinearRoundTimer.Timer | crates/consensus/src/timer.rs:219-243 | one call: its deadline and the stored first deadlines |
| RoundTimer.EagerDeadlines | crates/consensus/src/timer.rs:219-243 | after any calls, a round's deadline is one timeout from its first successful call, and two timeouts from it on every later one; failed calls store nothing |
| RoundTimer.PeersAgree | crates/consensus/src/timer.rs:169-186 | peers that started a round together agree on its end whatever else they called |
| DefinitionHasher.LegacyValidatorAddresses | crates/cluster/src/definition.rs:702-714 | the collapse loop succeeds exactly when all pairs are equal |
| DefinitionHasher.RepeatAddresses | crates/cluster/src/definition.rs:1628-1650 | the repetition loop and its cap |
| DefinitionHasher.HashDefinitionLegacy | crates/cluster/src/ssz.rs:147-252 | the walker calls of v1.0 to v1.2 |
| DefinitionHasher.HashOperators | crates/cluster/src/ssz.rs:423-451 | the operator loop: fails exactly on an operator that does not fit |
| DefinitionHasher.HashDefinitionV3 | crates/cluster/src/ssz.rs:254-367 | the walker calls of v1.3 and v1.4 |
| DefinitionHasher.HashDefinitionV5 | crates/cluster/src/ssz.rs:369-613 | the walker calls of v1.5 to v1.10 |
| DefinitionHasher.WalkDefinition | crates/cluster/src/ssz.rs:120-145 | dispatch: which definitions can be hashed and the tree that is |
| DefinitionFields.HashableIff | crates/cluster/src/ssz.rs:120-613 | which definitions can be hashed, every limit in numbers |
| DefinitionFields.LegacyLayout | crates/cluster/src/ssz.rs:147-252 | v1.0 to v1.2: which node each field is, by the source's field numbers |
| DefinitionFields.LegacyOperatorLayout | crates/cluster/src/ssz.rs:192-237 | and each operator's, with the zero nonce of v1.0 and v1.1 |
| DefinitionFields.V3Layout | crates/cluster/src/ssz.rs:254-339 | v1.3 and v1.4: which node each field is, with limits |
| DefinitionFields.V3OperatorLayout | crates/cluster/src/ssz.rs:310-339 | and each operator's fields |
| DefinitionFields.V3TailLayout | crates/cluster/src/ssz.rs:341-362 | then the creator from v1.4 on and the config hash |
| DefinitionFields.V5Layout | crates/cluster/src/ssz.rs:369-430 | v1.5 to v1.10: which node each of fields 0 to 7 is, and how many there are |
| DefinitionFields.V5ListLayout | crates/cluster/src/ssz.rs:420-490 | operators in field 8 and validators in field 10, with their limits |
| DefinitionFields.V5OperatorLayout | crates/cluster/src/ssz.rs:420-451 | each operator's fields |
| DefinitionFields.V5CreatorLayout | crates/cluster/src/ssz.rs:453-467 | the creator's fields |
| DefinitionFields.V5ValidatorLayout | crates/cluster/src/ssz.rs:469-490 | each validator's fee recipient, then its withdrawal address |
| DefinitionFields.V5ExtraLayout | crates/cluster/src/ssz.rs:492-613 | the fields later versions add and the config hash at the end |
| DefinitionFields.PaddedIs | crates/ssz/src/helpers.rs:71-80 | padding puts zeros in front |
| DefinitionFields.AddressIff | crates/ssz/src/helpers.rs:6-17 | which texts are addresses, and of which bytes |
| DefinitionLaws.ConfigTreeIff | crates/cluster/src/ssz.rs:120-613 | two hashable definitions have the same config-only hash input exactly when they have one version and agree on the fields it covers, addresses and fork version up to hex decoding and left padding |
| DefinitionLaws.DefinitionTreeIff | crates/cluster/src/definition.rs:93-95 | the same for the full hash input: one version, and agreement on every field it hashes, ENRs, signatures and config hash included |
| DefinitionLaws.VersionsDiffer | crates/cluster/src/ssz.rs:120-613 | hash inputs of different versions never coincide |
| DefinitionLaws.TimestampFree | crates/cluster/src/ssz.rs:238-248 | the full hash of v1.0 leaves out the timestamp, which its config hash covers |
| DefinitionLaws.DefinitionTreeBindsOperators | crates/cluster/src/ssz.rs:147-503 | equal full hash inputs mean equal operator ENRs, and equal signatures up to left padding |
| DefinitionSigning.ResignedKeepsConfigHash | crates/cluster/src/definition.rs:90-95 | changing ENRs, signatures and stored hashes never changes the config hash |
| DefinitionSigning.DefinitionHashFree | crates/cluster/src/definition.rs:741-744 | the definition hash is not part of its own input |
| DefinitionSigning.DefinitionCell.SetDefinitionHashes | crates/cluster/src/definition.rs:735-747 | succeeds exactly when both hashes can be computed, changes only the hashes, and then verification succeeds |
| DefinitionSigning.DefinitionCell.Verify | crates/cluster/src/definition.rs:751-773 | succeeds exactly when both stored hashes are those of the walked trees |
| DefinitionSigning.DefinitionCell.SignCreator | crates/cluster/src/helpers.rs:157-171 | only the creator signature changes |
| DefinitionSigning.DefinitionCell.SignOperator | crates/cluster/src/helpers.rs:174-197 | only that operator's two signatures change, both or neither |
| DefinitionSigning.SignAll | crates/cluster/src/helpers.rs:156-197 | after setting the hashes, any sequence of creator and operator signatures leaves the signed config hash correct and changes nothing but signatures and hashes |
| DefinitionSigning.CollapseUndoesRepeat | crates/cluster/src/definition.rs:702-714 | collapsing repeated addresses gives the pair back, empty addresses for none |

## Left out

- Task wake-ups, channels, cancellation and lagging subscribers: events come in any order instead.
- `resolve_active_validators`, beacon requests and response parsing: their results are inputs.
- `delay_slot_offset`: broadcasts happen at any later time.
- Proposal, contribution and registration SSZ: the same header pattern around foreign containers.
- JSON, base64 and the foreign `SignedData` types: arbitrary functions.
- Error texts and the fields errors carry beyond their kind; failing hash steps report only that they failed.
- Walker errors inside the hasher: part of the arbitrary function from tree to root.
- Lock hashing, definition JSON conversions, signature verification: easy or cryptographic.
- f64 rounding outside printed text: the float step is an arbitrary function there.
- The increasing and linear timers as objects, timer selection and metrics: easy members.
- DefinitionLaws.ConfigTreeIff: compares the calls made on the walker, not the padded chunks a real hasher stores.
- DefinitionLaws.DefinitionTreeIff: likewise.
