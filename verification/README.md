# A model of the WAM Coin tooling

This project models the parts of the WAM Coin repository that decide something: the difficulty
rule, the emission and the treasury, the text and byte formats of keys, addresses and the genesis
block, the nonce search, the monitors that read the chain, the announcement bot, the pool's
accounting and block spool, and the two text transformers. Each is written in the form the
original has it. Code that updates something step by step is a method or a class, proved against
a function; the properties are lemmas about that function, over every input, every interleaving
or every run. `dafny verify dfyconfig.toml` verifies everything.

| modules | what they model |
|---|---|
| `Compact`, `DarkGravityWave` | the compact target encoding and the retargeting rule, iterated along a chain |
| `Emission`, `Treasury`, `Ledger` | the subsidy, the treasury's share of it, and the ledger held against the chain |
| `Positional`, `Base58`, `Wif`, `AddressCheck` | Base58Check printing and its three parsers, private keys, one-letter corrections |
| `Serialization`, `Coinbase`, `Layout` | integers, CompactSize, pushes, script numbers, the genesis coinbase and header, and where each field stands |
| `Mining` | the strided search: any number of workers, any interleaving, any of them dying |
| `ScalarMul` | double-and-add over any associative addition with an identity |
| `Sets`, `ReorgAudit`, `ForkBracket` | the rotating re-reading of recorded hashes, and how deep a rewrite is said to be |
| `Heartbeat`, `Announce`, `Banner`, `Channels` | the daily post, the other announcements, who receives them, and one whole pass |
| `PeerWatch`, `Toggle` | the watch of one seed on the others; a flag kept on disk and the words said when it turns |
| `Accounting`, `Spool` | the pool's promise chain, and the blocks waiting in Redis |
| `Pieces`, `Rebrand`, `RebrandTable` | texts cut into what is kept and what is replaced; the rewriting of the coin's name, with its two tables |
| `LineKinds`, `Pages` | the block parser of the page generator |
| `Arith`, `Bytes`, `Text`, `Options`, `Amounts` | division, shifts, white space, optional values, amounts of money |

SHA-256 and the proof-of-work hash are arbitrary functions. What a node, Redis, the clock or a
release page answers is an input; where the code distinguishes "no answer", so does the input.
Python's integers are Dafny's; packed widths are preconditions. Line and pattern tests are
predicates over characters.

## Where the code and its documentation disagree

The model follows the code. Each point has a lemma naming an input, or the exact condition.

- `scripts/dgw_model.py` compares 23 intervals with 24 target spacings, so a chain exactly on
  schedule is pulled to 23/24 of its target (`OnScheduleTightens`); a window of zero targets
  never recovers (`ZeroNeverRecovers`).
- `genesis/genesis_generator.py` reports "exhausted the 32-bit nonce space without finding a valid
  hash" also when workers died, with no nonce hashed at all (`DeadWorkerHidesNonces`) or with every
  nonce hashed and the good one among them (`DeadWorkerHidesHit`); the report is right exactly when
  each dead worker had moved past the last nonce (`ExhaustedExactly`). The hash count it prints is
  never too large, and exact exactly when each dead worker had hashed a multiple of 64 nonces
  (`CountersExact`).
- `scripts/gen_founder_key.py` accepts a 34-byte payload not ending in 01, which prints back as a
  different string (`WifReprints`; `LooseFlagByte` for any such payload).
- `scripts/check_treasury_ledger.py` promises that any unrecorded spend breaks the identity. It can
  be hidden by two rows naming one transaction (`RepeatedRowHidesSpend`), by a row naming a
  stranger's transaction, since the inputs are never looked at (`StrangerRowHidesSpend`), by a row
  naming one that is still waiting to be mined (`WaitingRowHidesSpend`), and with no row at all by
  somebody paying the treasury (`GiftHidesSpend`). When the identity holds, nothing is missing
  exactly when repeats, overstatements and unnamed inflow come to nothing
  (`IdentityFindsMissingRow`). A gift alone also breaks the identity with nothing missing
  (`GiftBreaksIdentity`).
- `scripts/check_reorg.py` says that the rest of the recorded heights is re-read within the hour; a
  round of k runs covers the list exactly when it has at most 60k heights (`RoundTime`;
  `HourIsTooShort` for a chain of 1820 blocks). With no bracket, because nothing below a change
  matches or a read failed, it quotes one depth, right only if the fork is directly below
  (`UnbracketedDepth`, `LoneHeightUnderstates`); and likewise when the last tip is the bracket's
  floor (`QuotedDepthCoversFork`; in `FloorTipMisquotes` it quotes a depth of -4).
- `bots/announce.js` must never announce the same halving twice because of a restart. A later pass
  that sees the same subsidy announces it again exactly when no pass since was saved that knew the
  subsidy, or the last such pass knew a larger one (`HalvingRepeatedExactly`): so after a crash
  between sending and saving, at any later time (`UnsavedHalvingRepeats`), and otherwise only when
  the chain itself went back (`HalvingTwiceNeedsCrash`). Milestones, releases, rotations, stalls
  and recoveries have their own conditions (`MilestoneRepeatedExactly`, `ReleaseRepeatedExactly`,
  `RotationRepeatedExactly`, `OutagesAlternateExactly`). A configured hour of 24 or more is accepted and silences the daily post (`HourOutOfRange`).
- `scripts/peer_watch.py` says an alarm once, and once that the host is back, exactly when every
  run that says one of the two, but for the last that does, could write its state
  (`AlternatesExactly`). Once writing fails after two written misses every further miss is an alarm
  (`UnsavedRunsRepeat`, `UnsavedMissAlarms`); if it never succeeded, a dead seed is never announced
  (`NeverWrittenNeverSpeaks`).
- `pool/server.js`: one failed task never stops what follows in `inOrder`, except that a rejection
  with null or undefined makes the handler throw and skips exactly the next task
  (`SkippedExactlyWhen`; `NullSkipsNext` for a run of two). This is about `inOrder` for arbitrary tasks: nothing here says that
  `recordShare` or `recordBlock` reject that way.
- `scripts/build_pages.py`: a marked line that is a rule, or a blank between blocks, carries no mark; all others do
  (`MarksAreCarried`).

## Model

| member | source | states |
|---|---|---|
| Compact.EncodeTarget | scripts/dgw_model.py:96-111 | the in-place encoder computes the specified code and never leaves the sign bit of the mantissa set |
| Compact.TargetOfCode | scripts/dgw_model.py:87-93 | the target of a code is its 23-bit mantissa times, or divided by, 256 for each byte its size is off three |
| Compact.EncodeTruncates | scripts/dgw_model.py:87-111 | for every target, decoding its code gives at most the target, and loses at most the decoded value over 32768 |
| Compact.EncodeMonotone | scripts/dgw_model.py:96-111 | a larger target never gets a smaller code |
| Compact.EncodeIsCanonical | scripts/dgw_model.py:96-111 | every code produced is canonical, described by its two fields alone |
| Compact.CanonicalExactly | scripts/dgw_model.py:87-111 | decoding then encoding is the identity on a code if and only if it is canonical |
| Compact.EncodeSettles | scripts/dgw_model.py:87-111 | encode, decode, encode is encode |
| DarkGravityWave.Dgw | scripts/dgw_model.py:118-146 | the loop and the in-place clamps compute the specified next code, short windows included |
| DarkGravityWave.MeanOfWindow | scripts/dgw_model.py:127-135 | the mean by the places of the blocks alone: it starts from the newest target and takes in the 23 before it going back, each with weight 1 against k + 1, rounded down each time |
| DarkGravityWave.NewestCountsTwice | scripts/dgw_model.py:127-135 | 25 times the mean of a window is twice its newest target plus the 23 before it, less at most 299 |
| DarkGravityWave.NextBitsOfWindow | scripts/dgw_model.py:124-146 | the next code from the mean, the times of the first and the last of the 24 blocks, the clamps and the cap; the limit's code for a shorter window |
| DarkGravityWave.MeanFormula | scripts/dgw_model.py:129-135 | the running mean counts the newest target twice and the others once, less a remainder bounded by the triangle number |
| DarkGravityWave.MeanBetween | scripts/dgw_model.py:129-135 | the mean stays between the smallest and the largest target of the window |
| DarkGravityWave.StepBounds | scripts/dgw_model.py:137-146 | the next decoded target is at most min(limit, 3 * largest), and what is encoded is at least min(limit, smallest / 3) |
| DarkGravityWave.NextBitsMonotone | scripts/dgw_model.py:118-146 | easier blocks and a longer span never make the next block harder |
| DarkGravityWave.FixedPoint | scripts/dgw_model.py:118-146 | a uniform window at or below the limit spanning 2880 seconds is a fixed point if and only if its code is canonical |
| DarkGravityWave.OnScheduleTightens | scripts/dgw_model.py:137-146 | blocks exactly 120 seconds apart cut the target to 23/24, so the schedule itself is not a fixed point |
| DarkGravityWave.SlowRounds | scripts/dgw_model.py:118-146 | at the upper clamp every 24 blocks at least double the smallest target, up to what the limit encodes to |
| DarkGravityWave.Recovers | scripts/dgw_model.py:118-146 | once enough doublings have passed, every block carries exactly the encoded limit |
| DarkGravityWave.RecoveryTime | scripts/dgw_model.py:118-146 | recovery within 24 blocks for each bit of the ratio of the ceiling to the smallest target |
| DarkGravityWave.ZeroNeverRecovers | scripts/dgw_model.py:118-146 | from a window of zero targets every later target is zero, however slow the blocks |
| Emission.EmissionTotal | scripts/check_treasury_ledger.py:144-155 | the shifted subsidy summed over all heights is L * (2S - popcount(S)), for any subsidy and interval and enough halvings |
| Emission.EmissionBound | scripts/check_treasury_ledger.py:144-155 | no height exceeds that total, and it is reached if and only if the subsidy has run out |
| Emission.MiningAllocation | README.md:181-204 | with the network's constants: 2,200,000 atoms short of 20,000,000 WAM, from height 6,600,000 on and not before |
| Emission.TotalSupplyExact | src/wam/consensus/subsidy.cpp:108-132 | the epoch-by-epoch supply equals premine plus the block-by-block sum and stays below the cap |
| Treasury.AccruedThrough | scripts/check_treasury_ledger.py:158-170 | jumping from epoch to epoch gives the block-by-block sum, in at most one turn for each epoch |
| Treasury.AccruedGrows | scripts/check_treasury_ledger.py:158-170 | what has accrued never shrinks with the height |
| Treasury.AccruedSchedule | scripts/check_treasury_ledger.py:144-170 | the mainnet accrual in closed form at every height |
| Treasury.OperatingBudget | scripts/check_treasury_ledger.py:144-170 | non-decreasing, never above 750,000 WAM, and equal to it if and only if the height is at least 400,000 |
| Ledger.CheckLedger | scripts/check_treasury_ledger.py:289-365 | the loop over the rows finds exactly the specified faults, and the identity compares accrued less recorded with what is held |
| Ledger.FaultsOfRow | scripts/check_treasury_ledger.py:295-331 | which fault is found of a row, each if and only if: no such transaction, another amount to the row's address, another fee, an output to a third address |
| Ledger.FaultsInOrder | scripts/check_treasury_ledger.py:295-331 | amount, fee, third address: in that order, none twice |
| Ledger.FaultsByRow | scripts/check_treasury_ledger.py:295-331 | the findings of a table are those of its rows one after the other |
| Ledger.RowCounts | scripts/check_treasury_ledger.py:295-331 | anywhere in the table a row brings its own amount and the chain's fee into the identity, whatever fee and recipient it states and whatever its faults; nothing if its transaction is not there |
| Ledger.RunBalances | scripts/check_treasury_ledger.py:36-44 | over every run of blocks, transactions mined, broadcast and dropped, and rows, whoever pays in, what is held is what accrued less the net of what left |
| Ledger.Conservation | scripts/check_treasury_ledger.py:342-365 | over every run and whatever the rows, accrued less recorded less held is the net of what left without a row, less what rows count again, less what they overstate |
| Ledger.GoodRowRecords | scripts/check_treasury_ledger.py:295-331 | a row without a fault that names a mined treasury spend to somebody else records what that spend took out, and what others put in, less outputs without an address |
| Ledger.IdentityExactly | scripts/check_treasury_ledger.py:342-365 | over every run and whatever the rows, the identity holds if and only if the net of what moved unnamed equals what rows repeat or overstate |
| Ledger.IdentityFindsMissingRow | scripts/check_treasury_ledger.py:36-44 | when the identity holds, nothing is missing if and only if repeats, overstatements and unnamed inflow come to nothing; and where they do, it holds if and only if nothing is missing |
| Ledger.MatchingRowsHaveNoSurplus | scripts/check_treasury_ledger.py:36-44 | rows that each record their own spend, none named twice, repeat and overstate nothing |
| Ledger.CleanRowExcess | scripts/check_treasury_ledger.py:295-331 | what a row without a fault overstates, whatever it names: a spend paid by others in part or in whole, a coinbase, a transaction still waiting, a spend back to the treasury |
| Ledger.CleanVerdictMeansComplete | scripts/check_treasury_ledger.py:289-365 | with no fault found and the identity holding, nothing is missing if and only if repeats, misnamed transactions and unnamed inflow come to nothing; a table naming treasury spends once, and no unnamed inflow, makes the verdict exact |
| Ledger.RepeatedRowHidesSpend | scripts/check_treasury_ledger.py:36-44 | a run in which two rows naming one spend hide an unrecorded one: no fault, and the identity holds |
| Ledger.StrangerRowHidesSpend | scripts/check_treasury_ledger.py:36-44 | a run in which one row naming a stranger's payment hides an unrecorded spend |
| Ledger.WaitingRowHidesSpend | scripts/check_treasury_ledger.py:36-44 | a run in which one row naming a spend that waits to be mined hides an unrecorded one |
| Ledger.GiftHidesSpend | scripts/check_treasury_ledger.py:36-44 | a run in which a stranger's payment to the treasury hides an unrecorded spend, with no row at all |
| Ledger.GiftBreaksIdentity | scripts/check_treasury_ledger.py:342-365 | a run in which such a payment breaks the identity with nothing missing |
| Positional.RebaseInverts | scripts/gen_founder_key.py:260-272 | changing base and back is the identity, leading zeros included |
| Base58.B58Check | scripts/gen_founder_key.py:260-272 | the division loop and the padding compute the specified string |
| Base58.PrintedNumber | scripts/gen_founder_key.py:260-272 | the symbols printed are the number of the payload and the first four bytes of its double hash in base 58, with one 1 for each zero byte in front |
| Base58.AlphabetIs | genesis/genesis_generator.py:111 | the symbols are the digits and letters without 0, I, O and l |
| Base58.Base58DecodeCheck | genesis/genesis_generator.py:133-151 | the generator's parser, error by error |
| Base58.AcceptedExactly | genesis/genesis_generator.py:133-151 | a string is accepted with a payload if and only if the payload is not empty and the string spells it followed by four bytes of its double hash |
| Base58.DecodeAddress | scripts/verify_address.py:36-56 | the address checker's parser, error by error |
| Base58.DecodeEncode | scripts/gen_founder_key.py:260-272 | bytes survive being written in base 58, leading zero bytes included |
| Base58.EncodeDecode | genesis/genesis_generator.py:133-151 | a readable string is the only spelling of its bytes |
| Base58.ParsePrint | genesis/genesis_generator.py:133-151 | parsing what was printed gives the payload back, for every payload but the empty one, which is refused |
| Base58.PrintParse | genesis/genesis_generator.py:133-151 | printing what was accepted gives the very string back |
| Base58.ParsersAgree | scripts/verify_address.py:36-56 | a valid checksum is reported on exactly the strings the generator accepts with a 21-byte payload, with the same payload |
| Wif.BuildWif | scripts/gen_founder_key.py:279-283 | the body grown in place prints as specified |
| Wif.WifBytes | scripts/gen_founder_key.py:279-283 | the string spells the version, the scalar in 32 bytes with the most significant first, 1 if compressed, and four bytes of double hash |
| Wif.WifToPrivkey | scripts/gen_founder_key.py:459-507 | the key parser, error by error, white space stripped |
| Wif.WifRoundTrip | scripts/gen_founder_key.py:279-283 | every key survives printing and parsing, for both compression flags |
| Wif.WifReprints | scripts/gen_founder_key.py:459-507 | an accepted string is what its key prints if and only if its payload is 33 bytes or ends in 01 |
| Wif.LooseFlagByte | scripts/gen_founder_key.py:459-507 | every 34-byte payload with another last byte gives an accepted string that its key does not print |
| AddressCheck.FindSingleCharFix | scripts/verify_address.py:59-78 | every position, every symbol, in order, keeping those that pass |
| AddressCheck.FixesAreExact | scripts/verify_address.py:59-78 | the suggestions are exactly the passing addresses one character away |
| AddressCheck.FixesSayWhat | scripts/verify_address.py:59-78 | each suggestion names the position counted from one, the character there, the one to put, and the address that gives |
| AddressCheck.FixesAreOrdered | scripts/verify_address.py:66-68 | by position, then in alphabet order, none twice |
| Serialization.TakeVarintBack | genesis/genesis_generator.py:154-161 | a length prefix reads back whatever follows it |
| Layout.VarintForm | genesis/genesis_generator.py:154-161 | which lengths take one, three, five and nine bytes, with which tag, the least significant byte first |
| Layout.VarintIsShortest | genesis/genesis_generator.py:154-161 | no shorter bytes read as the same length, and no others of that size |
| Serialization.TakePushBack | genesis/genesis_generator.py:164-173 | a push reads back its data and leaves the rest, for every length below 2^32 |
| Layout.PushForm | genesis/genesis_generator.py:164-173 | which sizes take a length in front of one, two, three and five bytes, and that the data follow |
| Serialization.BuildScriptNum | genesis/genesis_generator.py:176-190 | filling the bytes and setting the sign in place computes the specified number |
| Serialization.ScriptNumBack | genesis/genesis_generator.py:176-190 | every integer, of any sign and size, reads back as itself |
| Layout.ScriptNumIsShortest | genesis/genesis_generator.py:176-190 | a script number is the shortest form that reads as its integer, and the only one of that size |
| Coinbase.ReadTimelockBack | genesis/genesis_generator.py:241-257 | a script gives back its key hash and lock time, lock time 0 included |
| Layout.ScriptLayout | genesis/genesis_generator.py:235-257 | the bytes of both scripts, for every lock time of four bytes |
| Layout.TranchesAre | genesis/genesis_generator.py:260-279 | the five tranches byte by byte: 400,000 WAM each, locked until the listed times in order |
| Coinbase.OutputsMintPremine | genesis/genesis_generator.py:260-279 | whatever the options, the outputs add up to the premine |
| Coinbase.BuildCoinbaseTx | genesis/genesis_generator.py:282-297 | appending field by field gives the specified transaction |
| Layout.CoinbaseLayout | genesis/genesis_generator.py:222-297 | every field of the coinbase in its place, the script signature's first numbers byte by byte |
| Layout.OutputsLayout | genesis/genesis_generator.py:292-295 | an output is its value in eight bytes, the length of its script and the script, one output after the other |
| Coinbase.ReadCoinbaseBack | genesis/genesis_generator.py:222-297 | the bytes determine the phrase and every output in order, for all values and lengths that can be packed |
| Coinbase.PrefixPlusNonce | genesis/genesis_generator.py:300-307 | the 76-byte prefix and a packed nonce are the whole header, for every nonce |
| Layout.HeaderLayout | genesis/genesis_generator.py:300-307 | every field of the header at its offset, integers with the least significant byte first |
| Coinbase.NoncesDiffer | genesis/genesis_generator.py:334-336 | different nonces give different headers |
| Mining.NoNonceTwice | genesis/genesis_generator.py:314-377 | over every interleaving no nonce is hashed twice, none above 2^32 - 1 at all, and what was found was hashed and meets the target |
| Mining.FoundOnce | genesis/genesis_generator.py:342-349 | the result is written at most once |
| Mining.SearchEnds | genesis/genesis_generator.py:328-369 | once every worker has taken two steps for each nonce of its stride and four more, or died, all can be joined, in any interleaving |
| Mining.StopIsHeeded | genesis/genesis_generator.py:332-349 | once `stop` is set four more steps end any worker, wherever it stands |
| Mining.CountersExact | genesis/genesis_generator.py:337-350 | after the joins the counters never add up to more than the number of hashes, and to exactly that if and only if each worker that died had hashed a multiple of 64 nonces; so they do when nobody died |
| Mining.FinishedStrideFails | genesis/genesis_generator.py:334-349 | with nothing found, a worker that ended by itself has tried its whole stride in vain |
| Mining.ExhaustedMeansNone | genesis/genesis_generator.py:371-377 | with no worker dead, nothing found means that every nonce was tried and fails |
| Mining.DeadWorkerHidesNonces | genesis/genesis_generator.py:371-377 | with a dead worker the same report can be made with no nonce tried |
| Mining.DeadWorkerHidesHit | genesis/genesis_generator.py:342-349 | a worker dying between hashing and writing down the good nonce gives that report with every nonce tried |
| Mining.ExhaustedExactly | genesis/genesis_generator.py:371-377 | every nonce was tried and fails if and only if every dead worker had moved past the last nonce |
| ScalarMul.OneRound | scripts/gen_founder_key.py:113-117 | one turn of the loop keeps result plus k times the addend |
| ScalarMul.Mul | scripts/gen_founder_key.py:108-118 | double-and-add is k-fold addition, in one turn for each bit of k |
| ReorgAudit.BoundedWork | scripts/check_reorg.py:211-228 | a run reads at most 79 heights, whatever is recorded and however long the chain |
| ReorgAudit.AlwaysRead | scripts/check_reorg.py:211-221 | the last six blocks below the tip and those at the other listed distances are read on every run, whatever is on file and wherever the cursor stands; anything else read is a recorded height of the last 5000 |
| ReorgAudit.ReportedAtOnce | scripts/check_reorg.py:311-330 | a changed hash at one of these places is reported by the very next run, if the read is answered |
| ReorgAudit.FileAfterRun | scripts/check_reorg.py:403-406 | after a run the file holds the answers and, of the rest, exactly what is less than 5000 below the tip |
| ReorgAudit.ListStands | scripts/check_reorg.py:211-228 | on a chain that stands still the list never changes and the cursor moves sixty places a run |
| ReorgAudit.OnFile | scripts/check_reorg.py:403-406 | what is on file for a height is the chain's hash once some run got it, and the earlier one until then, whichever reads fail |
| ReorgAudit.ReportedAtFirstAnswer | scripts/check_reorg.py:322-406 | whichever reads fail, a changed hash is reported exactly by the first run that gets an answer for it |
| ReorgAudit.ReportedExactlyOnce | scripts/check_reorg.py:311-406 | with every read answered, a changed hash of the last 5000 heights is reported by exactly one run, among the first max(1, ceil(n / 60)) |
| ReorgAudit.NoFalseReport | scripts/check_reorg.py:329-330 | an unchanged hash is never reported |
| ReorgAudit.RoundTime | scripts/check_reorg.py:113-116 | k runs re-read the whole list if and only if it has at most 60k heights |
| ReorgAudit.HourIsTooShort | scripts/check_reorg.py:113-116 | with 1820 blocks on file, thirty runs leave some unread |
| ForkBracket.Bisect | scripts/check_reorg.py:244-269 | the bisection ends with nothing recorded inside the bracket, its ends tested or given, in at most floor(log2(pool)) + 1 reads; it gives up only on a read that raised |
| ForkBracket.Compare | scripts/check_reorg.py:329-363 | nothing is claimed if and only if nothing changed; otherwise the claim is made from the bracket, or from the shallowest change if there is none |
| ForkBracket.BracketHoldsFork | scripts/check_reorg.py:244-269 | the fork lies in the bracket, wherever it is and whichever reads fail; with none failing there is a bracket if and only if some height below still matches |
| ForkBracket.QuotedDepthCoversFork | scripts/check_reorg.py:353-363 | with a bracket, what is quoted covers the true depth if and only if the last tip is not the floor or the fork is directly under the shallowest change; when one number is quoted, exactly |
| ForkBracket.QuotedRangeIsTight | scripts/check_reorg.py:353-363 | with a bracket whose floor is not the last tip, the depths the quote covers are exactly those of the forks that all that is on file and all that was read allow |
| ForkBracket.FloorTipMisquotes | scripts/check_reorg.py:353-363 | a last tip that is the bracket's floor: -4 is quoted for a fork one block above that tip |
| ForkBracket.UnbracketedDepth | scripts/check_reorg.py:338-363 | with no bracket, a failed read included, the one depth quoted is never too deep and is right if and only if the fork is directly under the shallowest change |
| ForkBracket.LoneHeightUnderstates | scripts/check_reorg.py:345-363 | one height on file and a fork five blocks below it: one block is quoted |
| Heartbeat.AtMostOnePerPeriod | bots/announce.js:729-747 | at most one post in each 24-hour period starting at the configured hour, over any run |
| Heartbeat.NeverSilentFor36Hours | bots/announce.js:736-746 | after every tick the last post, if there ever was one, is less than 36 hours old |
| Heartbeat.SilenceIsBounded | bots/announce.js:729-747 | with ticks at most a gap apart, consecutive posts are less than 36 hours and a gap apart |
| Heartbeat.PeriodIsPosted | bots/announce.js:729-747 | a period gets its post if and only if a tick ran between the slot and midnight, or later with 36 hours behind it |
| Heartbeat.FirstPost | bots/announce.js:729-737 | there is a first post if and only if some tick ran between the slot and midnight |
| Heartbeat.HourOutOfRange | bots/announce.js:729-737 | an hour of 24 or more means no post ever |
| Announce.Bot.Tick | bots/announce.js:564-751 | the tick's whole new state and everything it says; for the operator are exactly the stalls, recoveries and held releases; a release is announced only as verified in that sight, and held only as not |
| Announce.SaidInOrder | bots/announce.js:575-751 | halving, rotation, milestones, stall or recovery, release, daily post: in that order, and only milestones can be several |
| Announce.MilestonesInOrder | bots/announce.js:597-609 | milestones come in the configured order, each at its first mention |
| Channels.RunOnce | bots/announce.js:786-854 | from the tick to the channels: a text is published if and only if it is that of something said and of no stall, recovery or held release, for any wording, with the banner and without; the operator gets exactly those |
| Announce.Bot.CrossMilestones | bots/announce.js:597-609 | the loop over the configured heights, duplicates included |
| Announce.RemembersHeight | bots/announce.js:632-653 | the height, its first sighting and the stall flag are functions of the history alone |
| Announce.MilestoneSaidWhen | bots/announce.js:597-609 | a milestone is announced exactly at the first tick at or above it, if an earlier tick was below |
| Announce.StallSaidWhen | bots/announce.js:632-653 | a stall is said exactly when the stretch at one height first reaches the limit, a recovery exactly when such a stretch ends |
| Announce.OutagesAlternate | bots/announce.js:632-653 | over every run of a bot that keeps its state stalls and recoveries strictly alternate, a stall first |
| Announce.OutagesAlternateExactly | bots/announce.js:632-653 | over any passes, crashes included, they strictly alternate if and only if every pass that says one, but for the last that does, was saved |
| Announce.HeldThenAnnouncedOnce | bots/announce.js:656-710 | while a new release does not verify it is held with one note; the first tick that verifies it announces it, once |
| Announce.SameSightSaysNothing | bots/announce.js:564-751 | seeing the same things again, a bot that kept its state says nothing |
| Announce.HalvingRepeatedExactly | bots/announce.js:91-93 | after a halving was announced, any later pass that sees the subsidy announces it again if and only if no saved pass since knew the subsidy, or the last such pass knew a larger one |
| Announce.HalvingTwiceNeedsCrash | bots/announce.js:91-93 | the same halving announced at two passes: the first was not saved, or a saved pass between saw more |
| Announce.UnsavedHalvingRepeats | bots/announce.js:821-856 | a halving whose pass was not saved is announced again by the next pass that sees its subsidy, at any later clock |
| Announce.RotationRepeatedExactly | bots/announce.js:590-595 | key rotations likewise, for any two passes |
| Announce.RepeatedExactlyWhenUnsaved | bots/announce.js:821-856 | a pass that sees the node as the last one did, at any clock, repeats its halvings, rotations, milestones and releases if that one was not saved, and none if it was; at the same clock, everything |
| Announce.MilestoneRepeatedExactly | bots/announce.js:597-609 | once announced, a milestone is announced again by a later pass at or above it if and only if no pass since, the announcing one included, was saved at or above it |
| Announce.MilestoneTwiceNeedsCrash | bots/announce.js:821-856 | a milestone announced twice was first announced by a pass that was never saved |
| Announce.ReleaseRepeatedExactly | bots/announce.js:656-690 | once announced, a release is announced again by a later pass that finds it verified if and only if the last pass saved since with a verified release, if any, had another one |
| Banner.Outgoing.ApplyBanner | bots/announce.js:550-561 | the messages and the marks after the rewriting; nothing changes without a banner |
| Banner.Outgoing.Route | bots/announce.js:821-854 | unmarked messages to every channel, marked ones to the operator or nowhere |
| Banner.MarksSurvive | bots/announce.js:550-561 | a rewritten message is marked if and only if it was, or the same text with the banner already on it was |
| Banner.BannerIdempotent | bots/announce.js:550-561 | putting the banner on twice is putting it on once, marks included |
| Banner.PublishedHas | bots/announce.js:842-853 | a channel gets a message if and only if it is unmarked |
| Banner.PublishedInOrder | bots/announce.js:821-854 | message by message and channel by channel, in order, none twice and none missing |
| Banner.PrivateInOrder | bots/announce.js:829-840 | the operator gets the marked messages, all of them and in order |
| Banner.MarkedNeverPublished | bots/announce.js:550-854 | whatever the tick marked reaches no channel, in either form, on mainnet and off it |
| Banner.WithoutRemarking | bots/announce.js:535-548 | without carrying the marks over, marked messages would be published |
| PeerWatch.Watcher.Check | scripts/peer_watch.py:169-213 | a run over all watched seeds: the whole new state and every alarm, and nothing at all when the own node is silent |
| PeerWatch.OfEachSeed | scripts/peer_watch.py:186-210 | a run says at most one thing of each seed, in the order they are watched, and leaves none out |
| PeerWatch.RecordIsHistory | scripts/peer_watch.py:186-199 | the record of a seed is a function of the answered, saved looks alone |
| PeerWatch.SpeaksExactlyWhen | scripts/peer_watch.py:186-210 | an alarm exactly at the third consecutive miss, a recovery exactly at the first sighting after three or more |
| PeerWatch.AlternatesExactly | scripts/peer_watch.py:186-213 | over any runs, written or not, alarms and recoveries strictly alternate, an alarm first, if and only if every run that says one, but for the last that does, was written |
| Toggle.AlternatesExactly | scripts/peer_watch.py:186-213 | the same for any flag kept on disk and any words said when it turns |
| PeerWatch.AlarmsAlternate | scripts/peer_watch.py:186-210 | so they do when every write succeeds, and the record says which came last |
| PeerWatch.FirstRunIsQuiet | scripts/peer_watch.py:215-227 | leaving the first run's alarms unsent loses none |
| PeerWatch.UnsavedRunsRepeat | scripts/peer_watch.py:146-153 | while the state cannot be written every answered run speaks against the same record: what it says, and how often, at any clocks |
| PeerWatch.UnsavedMissAlarms | scripts/peer_watch.py:146-153 | after two written misses every unwritten one is an alarm |
| PeerWatch.NeverWrittenNeverSpeaks | scripts/peer_watch.py:146-153 | a state that never could be written means that nothing is ever said |
| PeerWatch.FileHoldsEachSeed | scripts/peer_watch.py:186-213 | the state file holds each seed's own record, undisturbed by the others, whichever writes fail |
| Accounting.OneAtATimeInOrder | pool/server.js:315-323 | tasks start in submission order, each after all earlier ones have settled, and each caller's outcome depends on the tasks alone |
| Accounting.SkippedExactlyWhen | pool/server.js:316-322 | over every interleaving a settled task was never started if and only if the one before it was and came out rejected with null or undefined; never two in a row |
| Accounting.NullSkipsNext | pool/server.js:316-322 | two tasks, the first rejected with null: the second settles without being started |
| Accounting.NobodySkipped | pool/server.js:305-308 | every task runs if and only if none but the last is rejected that way, and then every caller sees its own outcome |
| Accounting.NeverStuck | pool/server.js:305-323 | until every task has settled something is due, and every step taken leaves fewer |
| Spool.NoBlockIsLost | pool/server.js:345-366 | at every point of every run, crashes and failed commands included, a block put and never accepted is in the unsent or the refused hash with its bytes |
| Spool.RefusalKeepsWhenNamed | pool/server.js:349-361 | a refusal carried to its end keeps the block if and only if its reason is not the empty string |
| Spool.RefusalIsNamed | pool/lib/daemon.js:296-311 | a refusal always comes with a reason |
| Spool.PutDuringRemoveIsLost | pool/server.js:349-361 | a block put again after a refusing remove has looked in vain is deleted without a copy |
| Rebrand.MatchComplete | scripts/rebrand_qt.py:169 | a text with a described stretch at its front is matched there |
| Rebrand.MatchIsGreedy | scripts/rebrand_qt.py:169-238 | of all readings of a pattern at a place, the match is the one that takes each optional part as early as it can |
| Rebrand.CleanMeans | scripts/rebrand_qt.py:169-238 | no match at any position means that no stretch of the text is described by the pattern |
| Rebrand.SubKeepsClean | scripts/rebrand_qt.py:241-247 | replacing by one pattern never makes a match of another, nor leaves one of its own |
| Rebrand.Rewrite | scripts/rebrand_qt.py:241-247 | the loops over the two tables compute the specified text |
| Rebrand.SubSplits | scripts/rebrand_qt.py:244-246 | the text is kept pieces and hits in turn, each hit a match described by the pattern and no match beginning inside a kept piece; the result is the same pieces with WAM for each hit |
| Rebrand.ReplaceSplits | scripts/rebrand_qt.py:242-243 | the same for a phrase and its replacement |
| Pieces.SwapsOnce | scripts/rebrand_qt.py:241-247 | replacing every hit has one result, since a text splits in one way only |
| Rebrand.OneResult | scripts/rebrand_qt.py:241-247 | what is hit at a place is determined and never empty, for the phrases and for every pattern that needs a character |
| Rebrand.RewrittenInStages | scripts/rebrand_qt.py:241-247 | the whole pass as its stages: phrases in table order, the name in any case, spellings in table order, every hit replaced and nothing else touched at each |
| Rebrand.NothingLeft | scripts/rebrand_qt.py:241-247 | after one pass no pattern matches anywhere and no phrase has anything to replace |
| Rebrand.UntouchedExactly | scripts/rebrand_qt.py:241-247 | a text is left as it is if and only if no pattern matches in it |
| Rebrand.RewriteIdempotent | scripts/rebrand_qt.py:35-36 | rewriting twice is rewriting once, for any phrases and any safe patterns |
| RebrandTable.ScriptIdempotent | scripts/rebrand_qt.py:48-247 | and so for the two tables as they stand |
| RebrandTable.SchemeIsKept | scripts/rebrand_qt.py:45-51 | whatever follows the old URI scheme, the text comes out beginning with the new one |
| Pages.Convert | scripts/build_pages.py:232-417 | terminates on every input; the blocks come in order, each of the first kind that fits, of maximal extent and with the right contents and mark, only blank lines between |
| Pages.OpensByKind | scripts/build_pages.py:260-401 | which kind a line opens does not hang on the order of the tests, but for indented lines, which are code only if no rule, table head or quote |
| Pages.ReadFence | scripts/build_pages.py:267-274 | a fence runs to the next fence line, or one past the end |
| Pages.TakeCode | scripts/build_pages.py:341-355 | indented code goes on over a gap exactly when indented code resumes after it; the lines of such a gap are emptied |
| Pages.IndentedBody | scripts/build_pages.py:341-357 | the block's lines one by one: four spaces less, empty where the line lies in a gap that began without them, and only blank lines dropped at the end |
| Pages.ReadItems | scripts/build_pages.py:362-394 | a list takes markers and continuation lines; one item for each marker line, in order, holding its text and the stripped text of each line wrapped under it, joined by blanks |
| Pages.ItemsByMarker | scripts/build_pages.py:369-388 | the same over the line numbers: where each item begins and ends, and what it holds |
| LineKinds.ItemTextIs | scripts/build_pages.py:362-371 | an item line is an indent, a marker, a gap and the item's text: nothing else is lost |
| LineKinds.ItemWhenMarked | scripts/build_pages.py:362-371 | and every such line is an item |
| LineKinds.UnquoteIs | scripts/build_pages.py:303-306 | a quoted line is an indent, the mark, at most one white space and what is left |
| Pages.ReadQuote | scripts/build_pages.py:303-314 | a quote is converted from its lines with the marks shifted, and that is always less text |
| Pages.InOrder | scripts/build_pages.py:260-417 | successive blocks never share a line |
| Pages.EachLineOnce | scripts/build_pages.py:260-417 | every line is in exactly one block, or is blank and in none |
| Pages.MarksAreCarried | scripts/build_pages.py:240-258 | a marked line shows in a marked leaf, through any depth of quotes, if and only if it ends in a leaf; every line neither blank nor a rule when bare does |
| Pages.MarksAreEarned | scripts/build_pages.py:240-258 | where a mark shows, some marked line lies in the same leaf, through any depth of quotes |

## Left out

- The network, ssh, Redis, RPC, Telegram and Discord clients, key generation and prompts, and the scripts that only compare published text with a constant.
- RIPEMD-160, the curve itself and the hash functions: cryptography is taken as given, and the group laws as the specification of addition.
- `simulate` and the RPC reading in `scripts/dgw_model.py`, and `atoms` in `scripts/check_treasury_ledger.py`: floating point.
- `rewrite_by_sound` in `scripts/rebrand_qt.py` and the rewriting of whole files: they need Unicode's character names.
- The inline markup, HTML text, region form of the mark, table cells, heading slugs, the choice between ordered and plain lists, and `resolve_link` of `scripts/build_pages.py`; decimal digits outside ASCII in list markers.
- `headParagraphs`, `nextHeartbeatDueAt` and the wording of messages in `bots/announce.js`, and overlapping passes of the bot.
- The signal handler of `bots/announce.js`: it saves the state even between a tick and its sends, so a restart by signal at that moment loses messages instead of repeating them. In this model a pass that was saved has sent what it said; a send that fails counts as sent.
- In `scripts/peer_watch.py` the state is written before anything is sent; what a run says is what it hands to the notifier.
- A state file of `bots/announce.js` or `scripts/peer_watch.py` that cannot be read back, which starts either over.
- Channels.RunOnce: a pass in which the node cannot be read does nothing, and a dry run sends and saves nothing; neither is stated.
- In `Ledger` a mined transaction stays mined: reorganisations are not part of it.
- The stated balance and the worked example of `scripts/check_treasury_ledger.py`, and lookups that fail for a reason other than a missing transaction.
- `pool/lib/jobManager.js` beyond the spool commands: retries, drains and payouts; the crash between acceptance and payout.
- Coinbase.BuildCoinbaseTx: values and lengths that cannot be packed are excluded by a precondition, where the original raises an exception.
- Wif.BuildWif: a scalar that does not fit in 32 bytes is excluded by a precondition, where the original raises an exception.
- ReorgAudit.ReportedExactlyOnce: states the detection for a tip that does not move; with a moving tip the cursor indexes a list that shifts. A tip of 0 has nothing to re-read.
- ForkBracket.UnbracketedDepth: a run with no last tip on file quotes the number of changed heights; what that says about the depth is not stated.
- Spool.NoBlockIsLost: assumes that a block is not put while a remove of the same block is in flight; the callers put a block once, before it is offered.
- Accounting.NeverStuck: a task that never completes stops the chain, as it does in the original; what happens to a process whose last rejection is never handled is not modelled.
- Heartbeat.PeriodIsPosted: states a run from a fresh state, with the clock at least one day after the epoch.
