# Decentralized storage on Massa: a verified model

This project models a storage network on the Massa blockchain and proves what its parts promise:

- **The storage registry contract.** Providers register capacity, are challenged for proofs, are paid per
  period and claim their rewards; uploaders book capacity and their usage is counted. The contract keeps
  several redundant representations of the same facts, and the main results say that they agree in every
  state that any sequence of calls can reach.
- **Its datastore.** All of that lives in one flat map from bytes to bytes. The contract is also modelled on
  that map, through its key builders and serializers, and proved to follow the typed model call by call and
  over whole runs.
- **The wire format and the four stored structs**, with round trips, exact decoding and prefix-freeness.
- **The blob store of a provider**, as a map from sanitized keys, and its quota when uploads interleave.
- **Two calculations of the web page**: the split of an extension payment and the capacity pre-check.

## Layout

| file | contents |
|---|---|
| `Words`, `Sums` | machine words, arithmetic modulo 2^64, sums over maps |
| `Records`, `Registry`, `Runs` | stored values, the typed contract, runs of calls |
| `Answers` | what each call answers and leaves behind, in plain terms |
| `Ledger`, `LedgerTotals`, `History`, `Rewards` | challenges, counters, rewards, conservation, exclusion |
| `NodeLists`, `PeriodTotals`, `Bookings`, `Usage` | the redundant lists, period statistics, bookings, usage and pause |
| `Wire`, `Unicode`, `Cursor`, `Layouts`, `Structs` | the wire format, UTF-8, the cursor object, field layouts, the struct classes |
| `Keys`, `FlatStore`, `Contract` | key builders, what the datastore must hold, the contract on it |
| `Aliases`, `FlatRuns` | names that spell other keys, and runs on the datastore with any names |
| `Blobs`, `Quota` | the blob store, concurrent uploads |
| `FrontEnd` | the page's calculations |

Objects that the program updates in place are classes: the argument cursor, the four structs, the contract on
its datastore, and the blob store. Each of their methods is proved against a function of the old state, and
the lemmas are about these functions. `dafny verify dfyconfig.toml` verifies everything.

## How to read the statements

- A call either is `Done` with the next state and the coins paid, or `Reverted` with the first check that
  failed; a reverted call leaves no trace. Caller, period, time, attached coins and balance are inputs.
- A run is any sequence of calls by anybody and of coins arriving from outside. Results about "every run"
  start from deployment.
- The typed contract knows providers by their addresses only. What strings that spell other keys do on the
  datastore is the subject of `Aliases` and `FlatRuns`; runs without such strings are runs of the typed
  contract (`ClearRunsAgree`).
- `u64` arithmetic of the contract wraps silently and is modelled so. `Cong` is equality modulo 2^64. Where a
  result needs that nothing overflows, the lemma says so in its `requires` or on the left of an implication.

## Where code and documentation disagree

The model follows the code.

- Reward eligibility compares lifetime counters, although a comment speaks of the period
  (`smartContract/assembly/contracts/storage-registry.ts:765-766`). This is what makes exclusion permanent.
  `PassedPeriodUnpaid` gives a run in which a provider passed all its challenges for the period and is not
  paid, and `LifetimeAgainstPeriod` says exactly when the two tests agree.
- Only the providers in the submitted list are checked for having been challenged, although the check says
  "all providers" (lines 743-753). `UnchallengedIsShutOut` gives a run in which an active provider was never
  challenged, and `AllWereChallengedIff` says exactly when all were.
- The payout lacks the test for a positive counter that `hasPassedCurrentChallenge` has. A reward implies a
  challenge in the period if and only if that counter is positive (`RewardImpliesHistory`), which can fail at
  period `u64.MAX` alone, since that number also stands for "never challenged"
  (`SentinelPeriodPaysUnchallenged`).
- A string that spells the rest of the key `node_index`, or of a slot key `node_idx_<n>`, is taken for a
  provider. `DepartsIffStrays` says exactly which calls that concerns and what they then do; addresses of the
  chain are not among these strings.
- The capacity check wraps when a request and the bookings of others exceed a word (lines 915-925);
  `BookingFits` gives the exact condition and `BookingThatWraps` the input.
- A storage limit of `u64.MAX` bytes, which the configuration saturates to, is no limit
  (`LargestLimitIsNone`).
- An inactive node may update its allocation (lines 506-517), which makes the period statistics drift from the
  capacity on offer; `StatsTelescope` gives the exact condition under which they agree.
- The page says that its capacity check mirrors the contract. `PreCheckAgainstContract` says for every amount
  exactly when the two differ. For the amounts the page sends they differ only when the total booked would
  exceed a word, in which case the contract wraps (`PageIsExact`, `ContractAloneAccepts`); for smaller amounts
  also when more is booked than offered (`PageAloneAccepts`).

## Model

| member | source | states |
|---|---|---|
| Answers.Deployed | smartContract/assembly/contracts/storage-registry.ts:362-390 | The literal defaults, nobody registered, nothing stored, not paused |
| Answers.RegistrationAnswer | smartContract/assembly/contracts/storage-registry.ts:403-478 | Succeeds if and only if not paused, within the limits and not registered; stores exactly the new record, the metadata if any is given, and moves the statistics of the current period alone |
| Answers.UpdateAnswer | smartContract/assembly/contracts/storage-registry.ts:485-527 | Succeeds if and only if not paused, within the limits and registered, active or not; changes that capacity and the current period's statistics by the difference |
| Answers.UnregistrationAnswer | smartContract/assembly/contracts/storage-registry.ts:532-561 | Succeeds if and only if registered and active, paused or not; lowers that flag and the current period's statistics |
| Answers.MetadataAnswer | smartContract/assembly/contracts/storage-registry.ts:836-859 | Succeeds if and only if not paused and registered; replaces the caller's metadata and nothing else |
| Answers.RunWithinLimits | smartContract/assembly/contracts/storage-registry.ts:422-430 | As long as the configuration stays, no run takes a provider's capacity out of its limits |
| Answers.IssueAnswer | smartContract/assembly/contracts/storage-registry.ts:576-624 | Succeeds if and only if not paused, called by a challenger or the admin, for a fresh id and an active provider; counts it there and nowhere else |
| Answers.IssuedChallenge | smartContract/assembly/contracts/storage-registry.ts:598-609 | For any target on the datastore, the stored challenge field by field, its deadline being now plus the configured timeout, modulo 2^64; no other challenge moves |
| Answers.ChallengeStaysOpen | smartContract/assembly/contracts/storage-registry.ts:598-714 | An expiry that lists a new challenge settles it as failed if and only if it comes later than now plus timeout, which fits a word |
| Answers.ProofAnswer | smartContract/assembly/contracts/storage-registry.ts:632-684 | Succeeds if and only if not paused, the challenge is stored and unresolved, the caller is its node and now is not past its deadline; it is then resolved, and passed exactly when the proof is not empty |
| Answers.ProofInTime | smartContract/assembly/contracts/storage-registry.ts:598-661 | From issue to answer: the node's proof is taken exactly until now plus timeout |
| Answers.DistributionAnswer | smartContract/assembly/contracts/storage-registry.ts:730-753 | Succeeds if and only if not paused, called by a challenger or the admin, not distributed before, and all listed active providers were last challenged in the period |
| Answers.DistributionPays | smartContract/assembly/contracts/storage-registry.ts:758-783 | Every active node with equal counters gets multiplicity times capacity times rate, modulo 2^64, and the period noted if one reward is not 0; nobody else gets anything and no other field moves |
| Answers.DistributionRecords | smartContract/assembly/contracts/storage-registry.ts:785-787 | The period's total is the sum over the active nodes with equal counters of multiplicity times capacity times rate, modulo 2^64; no other period moves |
| Answers.ClaimAnswer | smartContract/assembly/contracts/storage-registry.ts:802-823 | Succeeds if and only if not paused, registered, something is pending and the balance covers it; pays exactly that and zeroes it, nothing else |
| Answers.BookingAnswer | smartContract/assembly/contracts/storage-registry.ts:875-948 | In every state with its lists in order, succeeds if and only if not paused, positive, paid for, and the capacity on offer covers the total after it, as words; replaces the caller's booking alone |
| Answers.BookingsArePaid | smartContract/assembly/contracts/storage-registry.ts:886-889 | While no single price exceeds a word, a run takes in at least what all bookings taken in it cost, each at the price then in force |
| Answers.RecordAnswer | smartContract/assembly/contracts/storage-registry.ts:957-993 | Succeeds if and only if not paused, called by a storage admin, positive, and the uploader is one or has booked; adds to that usage alone |
| Answers.RemoveAnswer | smartContract/assembly/contracts/storage-registry.ts:1002-1034 | Succeeds if and only if not paused, called by a storage admin and positive; subtracts from that usage alone, not below zero |
| Answers.AdminAnswer | smartContract/assembly/contracts/storage-registry.ts:1283-1420 | Admin calls succeed for the admin alone, a price only if positive, and touch no provider, challenge, statistics, booking or usage |
| Answers.PauseDecides | smartContract/assembly/contracts/storage-registry.ts:1392-1404 | Afterwards the contract is paused exactly as asked, and calls are refused for it exactly then |
| Answers.ChallengersDecide | smartContract/assembly/contracts/storage-registry.ts:1301-1329 | Afterwards exactly the address in question has gained or lost the right to challenge; the admin keeps it |
| Answers.StorageAdminsDecide | smartContract/assembly/contracts/storage-registry.ts:1338-1366 | Afterwards exactly the address in question has gained or lost the right to record uploads |
| Answers.TransferDecides | smartContract/assembly/contracts/storage-registry.ts:1411-1420 | Afterwards exactly the new address passes the admin check |
| Answers.SettingsDecide | smartContract/assembly/contracts/storage-registry.ts:1283-1385 | The configuration and the price are what was asked for, and nothing else moves |
| Answers.CallTouches | smartContract/assembly/contracts/storage-registry.ts:403-1432 | Each part of the state moves in the calls that are about it only, and only a claim pays |
| Answers.RefusedIffFaulty | smartContract/assembly/contracts/storage-registry.ts:403-1432 | Any call is refused if and only if one of 22 faults is there, and the reason given is one that is |
| Ledger.ExpireEffect | smartContract/assembly/contracts/storage-registry.ts:699-714 | The expiry loop keeps every id and settles as failed exactly the listed, unresolved, overdue challenges; every other record is untouched |
| Ledger.LedgerStep | smartContract/assembly/contracts/storage-registry.ts:576-684 | Every call keeps the ledger: counters of nodes and of periods are the numbers of the records they stand for, every record names a registered node and an existing period, and a node's last challenged period has a challenge |
| History.LedgerHolds | smartContract/assembly/contracts/storage-registry.ts:576-684 | The ledger holds in every state reachable from deployment, for any calls by anybody |
| LedgerTotals.NodesAndPeriodsSumAlike | smartContract/assembly/contracts/storage-registry.ts:576-684 | In every reachable state the counters summed over nodes equal those summed over periods, issued and passed, modulo 2^64, and exactly equal the numbers of challenges and of passed ones below 2^64 challenges |
| Rewards.PayEffect | smartContract/assembly/contracts/storage-registry.ts:758-783 | After the payout loop every eligible node has grown by multiplicity times reward, with the period noted; every other node is unchanged; duplicates in any order |
| Rewards.PaidIsGranted | smartContract/assembly/contracts/storage-registry.ts:776-787 | The recorded total is the sum of what each visit grants, modulo 2^64 |
| Rewards.GrantedIsShares | smartContract/assembly/contracts/storage-registry.ts:776-787 | Summing along the list equals summing multiplicity times reward over the eligible nodes |
| Rewards.DistributionIsOrderFree | smartContract/assembly/contracts/storage-registry.ts:730-797 | Address lists with the same multiplicities give the same outcome, failed checks included |
| Rewards.PayoutSum | smartContract/assembly/contracts/storage-registry.ts:776-783 | Pending rewards grow by exactly what the list grants: modulo 2^64, and exactly while everything fits a word |
| Rewards.RewardsAreConserved | smartContract/assembly/contracts/storage-registry.ts:730-823 | Over every run from deployment, pending plus claimed equals the sum of all periods' distributed totals modulo 2^64, exactly when all that was granted fits a word; paid out never exceeds received |
| History.CountersMeanPassed | smartContract/assembly/contracts/storage-registry.ts:766-771 | Equal counters mean that every challenge ever issued to the node is passed, and conversely |
| History.ChallengedLatest | smartContract/assembly/contracts/storage-registry.ts:610-613 | In every state that keeps the ledger, a node has a stored challenge issued in its last challenged period if and only if its lifetime counter is positive |
| History.RewardImpliesHistory | smartContract/assembly/contracts/storage-registry.ts:744-783 | Whoever is listed and eligible in a distribution that succeeds, for any period: all its challenges ever are resolved and passed, and it was challenged in that very period if and only if its lifetime counter is positive, which holds in every period but u64.MAX |
| History.LifetimeAgainstPeriod | smartContract/assembly/contracts/storage-registry.ts:765-771 | Whoever has an unpassed challenge in a period has unequal counters; whoever passed all of the period has equal counters if and only if it passed all of every other period |
| History.PassedPeriodUnpaid | smartContract/assembly/contracts/storage-registry.ts:765-771 | A run after which a listed provider that passed all its challenges for the period gets nothing, because of an earlier period |
| History.ChangedIsListed | smartContract/assembly/contracts/storage-registry.ts:758-783 | A distribution changes the records of listed, eligible nodes only |
| History.SentinelPeriodPaysUnchallenged | smartContract/assembly/contracts/storage-registry.ts:744-783 | Counterexample at period u64.MAX: a never-challenged node is paid |
| History.PassedCurrentMeansHistory | smartContract/assembly/structs/StorageNode.ts:43-49 | For any period, the check holds exactly when the node was last challenged in it, a challenge was issued to it then, and it passed every challenge ever issued to it |
| History.PermanentExclusion | smartContract/assembly/contracts/storage-registry.ts:650-661 | With a clock that does not run backwards, a node with a failed or overdue challenge keeps unequal counters forever, and its pending rewards never increase at any later point of the run |
| History.SettledForever | smartContract/assembly/contracts/storage-registry.ts:638-661 | No challenge disappears or changes what it was issued with, and a resolved one never changes again, over any run |
| History.ExpiryIsOrderFree | smartContract/assembly/contracts/storage-registry.ts:691-715 | An expiry run depends only on the set of ids listed |
| History.DistributedStays | smartContract/assembly/contracts/storage-registry.ts:740-787 | Once a period is distributed, no run changes its flag or its total |
| History.DistributedAtMostOnce | smartContract/assembly/contracts/storage-registry.ts:740-741 | After a successful distribution of a period, every later attempt for it reverts, whatever happens in between |
| History.AllWereChallengedIff | smartContract/assembly/contracts/storage-registry.ts:743-753 | After a successful distribution every active node was last challenged in the period if and only if every active node outside the list was |
| History.EmptyListCloses | smartContract/assembly/contracts/storage-registry.ts:740-787 | Distributing to the empty list succeeds in every state that allows a distribution, pays nobody, and makes every later attempt for the period revert |
| History.UnchallengedIsShutOut | smartContract/assembly/contracts/storage-registry.ts:743-753 | Counterexample to the documented check: with one active, never-challenged provider the empty list succeeds, and nobody is ever rewarded for that period |
| NodeLists.FindSlotSound | smartContract/assembly/contracts/storage-registry.ts:543-550 | The search loop stops at the first slot that holds the address |
| NodeLists.SwapRemove | smartContract/assembly/contracts/storage-registry.ts:543-552 | Swap with last and drop removes one element and keeps the others once each |
| NodeLists.ListsStep | smartContract/assembly/contracts/storage-registry.ts:428-561 | Every call keeps both lists in agreement with registrations and active flags |
| NodeLists.ListsHold | smartContract/assembly/contracts/storage-registry.ts:428-561 | In every reachable state the node index holds every registered address once, and (below 2^64 nodes) the slots hold each active node exactly once |
| NodeLists.TotalAllocatedIsAllocation | smartContract/assembly/contracts/storage-registry.ts:275-288 | The capacity loop computes the sum of the active allocations, modulo 2^64 |
| NodeLists.BothListsSumAlike | smartContract/assembly/contracts/storage-registry.ts:275-288 | Summing over the index filtered by active equals summing over the slots |
| PeriodTotals.StatsTelescope | smartContract/assembly/contracts/storage-registry.ts:454-558 | The sum over all periods of activeNodes is totalNodes modulo 2^64; the sum of totalGbStored is the active capacity if and only if the changes made by inactive nodes cancel |
| PeriodTotals.NoInactiveUpdateNoDrift | smartContract/assembly/contracts/storage-registry.ts:506-517 | Runs in which inactive nodes do not change their allocation have no drift |
| PeriodTotals.InactiveUpdateDrifts | smartContract/assembly/contracts/storage-registry.ts:506-517 | Counterexample: register, unregister, update makes the totals disagree |
| Bookings.LoopCountsDistinct | smartContract/assembly/contracts/storage-registry.ts:294-314 | The quadratic first-occurrence loop sums the bookings of the distinct addresses of any index, modulo 2^64 |
| Bookings.BookingsHold | smartContract/assembly/contracts/storage-registry.ts:131-140 | In every reachable state an address is in the uploader index, once, if and only if its booking is positive |
| Bookings.TotalBookedIsTotal | smartContract/assembly/contracts/storage-registry.ts:294-314 | With that invariant the loop computes the total of all bookings |
| Bookings.CheckedTotalIsNext | smartContract/assembly/contracts/storage-registry.ts:905-925 | The total that the contract checks is the total after the booking, in both branches, and the subtraction in it does not underflow while the total fits a word |
| Bookings.BookingFits | smartContract/assembly/contracts/storage-registry.ts:905-936 | A booking that is taken stays under the capacity on offer if the bookings of others plus the request fit a word, and, while the capacity on offer fits one, only then |
| Bookings.BookingThatWraps | smartContract/assembly/contracts/storage-registry.ts:915-925 | The input behind that condition: a request of 2^64 minus what others booked is taken whatever is on offer, and then 2^64 is booked |
| Bookings.BookedUnderHighWater | smartContract/assembly/contracts/storage-registry.ts:899-936 | As long as every request leaves room in a word besides the highest capacity offered before, booked capacity never exceeds the highest capacity offered so far |
| Bookings.SmallLeavesRoom | smartContract/assembly/contracts/storage-registry.ts:899-936 | Capacities and requests below 2^63 leave room |
| Bookings.BookedUnderCapacity | smartContract/assembly/contracts/storage-registry.ts:899-936 | In such runs without unregistering or shrinking it never exceeds the capacity on offer now |
| Usage.LargestSuffixMoves | smartContract/assembly/contracts/storage-registry.ts:980-1024 | Appending an entry moves the largest suffix sum by the entry, but not below zero |
| Usage.UsageIsLargestSuffix | smartContract/assembly/contracts/storage-registry.ts:957-1034 | Usage of an uploader is the largest net sum over all suffixes of its own records and removals, independent of all other calls; its key is absent exactly at zero |
| Usage.PausedRunFreezes | smartContract/assembly/contracts/storage-registry.ts:328-338 | Over every stretch of a run that stays paused nothing is paid out, rewards, allocations, counters, bookings and usage are frozen, and active flags only fall |
| Keys.DecimalInjective | smartContract/assembly/contracts/storage-registry.ts:71-73 | Decimal numbers in keys are injective |
| Keys.KeysCoincide | smartContract/assembly/contracts/storage-registry.ts:39-105 | Two of all the keys of the datastore have equal bytes if and only if they are the same key, or one is the node key of an address that spells the rest of another node_ key |
| Keys.AddressesAreClear | smartContract/assembly/contracts/storage-registry.ts:39-65 | Addresses starting with A never collide |
| Keys.ClearKeysDiffer | smartContract/assembly/contracts/storage-registry.ts:39-105 | On such names the sixteen key families are pairwise disjoint and injective |
| FlatStore.PutRepresents | smartContract/assembly/contracts/storage-registry.ts:213-215 | Writing one key moves the represented state at that key only |
| FlatStore.DelRepresents | smartContract/assembly/contracts/storage-registry.ts:180-189 | So does deleting one key |
| FlatStore.NodeReads | smartContract/assembly/contracts/storage-registry.ts:203-211 | A stored node is read back field for field |
| FlatStore.ChallengeReads | smartContract/assembly/contracts/storage-registry.ts:233-241 | A stored challenge is read back field for field |
| FlatStore.StatsReads | smartContract/assembly/contracts/storage-registry.ts:247-254 | Stored statistics are read back field for field |
| FlatStore.ConfigReads | smartContract/assembly/contracts/storage-registry.ts:191-197 | The stored configuration is read back field for field |
| Aliases.AddressesAreUnreadable | smartContract/assembly/contracts/storage-registry.ts:203-211 | Short printable addresses cannot be read as a length-prefixed text |
| Aliases.ReadIsFound | smartContract/assembly/contracts/storage-registry.ts:203-211 | For any string whatsoever, reading its node key gives the registered node, or a blank node when the string spells the index key or a slot key that is present, or nothing |
| Aliases.DepartsIffStrays | smartContract/assembly/contracts/storage-registry.ts:576-624 | For any names: the datastore does something else than the typed contract if and only if the contract is not paused, the caller may challenge, and either a fresh challenge names an alias and no provider, or a distribution, not done before and with all listed providers challenged, lists an alias for a period other than u64.MAX; the challenge is then issued and breaks the ledger, the distribution is refused |
| Aliases.SlotNameStrays | smartContract/assembly/contracts/storage-registry.ts:71-73 | After one registration the name of its slot is such a target |
| Aliases.ClearRunsAgree | smartContract/assembly/contracts/storage-registry.ts:403-1432 | Runs whose names are clear are runs of the typed contract |
| FlatRuns.CallKeepsTidy | smartContract/assembly/contracts/storage-registry.ts:403-1432 | Every call on the datastore keeps clear node names, a storable index, and blank nodes without capacity and rewards |
| FlatRuns.LedgerIffNoneStrays | smartContract/assembly/contracts/storage-registry.ts:576-684 | For any names: a run on the datastore from deployment ends with the ledger in order if and only if no challenge in it was issued for an alias |
| FlatRuns.FlatRewardsAreConserved | smartContract/assembly/contracts/storage-registry.ts:730-823 | For any names: over every run on the datastore, pending plus claimed equals distributed modulo 2^64, exactly while what was granted fits a word, and paid out never exceeds received |
| Contract.StorageRegistry.constructor | smartContract/assembly/contracts/storage-registry.ts:362-390 | The fresh datastore represents the deployed state |
| Contract.StorageRegistry.GetNode | smartContract/assembly/contracts/storage-registry.ts:203-211 | For any string: the registered node, the blank node under an alias, or null; a clear name finds exactly its node |
| Contract.StorageRegistry.SetNode | smartContract/assembly/contracts/storage-registry.ts:213-215 | Replaces one node and nothing else in the represented state |
| Contract.StorageRegistry.GetChallenge | smartContract/assembly/contracts/storage-registry.ts:233-241 | Null exactly for unknown ids, otherwise the stored challenge |
| Contract.StorageRegistry.SetChallenge | smartContract/assembly/contracts/storage-registry.ts:243-245 | Replaces one challenge and nothing else |
| Contract.StorageRegistry.GetPeriodStats | smartContract/assembly/contracts/storage-registry.ts:247-254 | The stored statistics, or zeros for a new period |
| Contract.StorageRegistry.SetPeriodStats | smartContract/assembly/contracts/storage-registry.ts:256-258 | Replaces the statistics of one period and nothing else |
| Contract.StorageRegistry.SetBookedUploaderGb | smartContract/assembly/contracts/storage-registry.ts:131-140 | Stores a booking, deleting the key at zero |
| Contract.StorageRegistry.SetUploaderUsage | smartContract/assembly/contracts/storage-registry.ts:180-189 | Stores a usage, deleting the key at zero |
| Contract.StorageRegistry.GetNodeAddressAt | smartContract/assembly/contracts/storage-registry.ts:75-85 | The address in a slot, empty when out of range or unset |
| Contract.StorageRegistry.GetTotalAllocatedGb | smartContract/assembly/contracts/storage-registry.ts:275-288 | The loop over the datastore equals the sum over the typed index |
| Contract.StorageRegistry.GetTotalBookedGb | smartContract/assembly/contracts/storage-registry.ts:294-314 | The nested loops over the datastore equal the first-occurrence sum |
| Contract.StorageRegistry.RegisterStorageNode | smartContract/assembly/contracts/storage-registry.ts:403-478 | On the flat store it does what the typed entry point says, or reverts with the same failed check and the datastore untouched |
| Contract.StorageRegistry.UpdateStorageAllocation | smartContract/assembly/contracts/storage-registry.ts:485-527 | Follows the typed update (no active check), or reverts with the same failed check and the datastore untouched |
| Contract.StorageRegistry.RemoveFromSlots | smartContract/assembly/contracts/storage-registry.ts:543-550 | Overwrites the first slot holding the address with the last slot |
| Contract.StorageRegistry.UnregisterStorageNode | smartContract/assembly/contracts/storage-registry.ts:532-561 | Follows the typed unregistration: flag, slots, count and statistics; or reverts untouched |
| Contract.StorageRegistry.IssueChallenge | smartContract/assembly/contracts/storage-registry.ts:576-624 | For any target: follows the typed call, or, when the target spells another node_ key that is present, stores a challenge that names nobody and a blank node; or reverts untouched |
| Contract.StorageRegistry.SubmitProof | smartContract/assembly/contracts/storage-registry.ts:632-684 | Follows the typed call: settles the challenge and counts it for its node and its issuing period when the proof is non-empty; or reverts untouched |
| Contract.StorageRegistry.ResolveExpiredChallenges | smartContract/assembly/contracts/storage-registry.ts:691-715 | Follows the typed expiry loop; it never reverts and ignores the pause |
| Contract.StorageRegistry.CheckChallenged | smartContract/assembly/contracts/storage-registry.ts:744-753 | Whether every listed active node was last challenged in the period and, but for the sentinel period, no listed string spells another node_ key |
| Contract.StorageRegistry.PayAll | smartContract/assembly/contracts/storage-registry.ts:758-783 | For any list, the payout loop on the datastore leaves the nodes and the total of the typed loop |
| Contract.StorageRegistry.DistributeRewards | smartContract/assembly/contracts/storage-registry.ts:730-797 | For any list: follows the typed distribution, except that a listed alias makes it revert; or reverts untouched |
| Contract.StorageRegistry.ClaimRewards | smartContract/assembly/contracts/storage-registry.ts:802-823 | Follows the typed claim: pays exactly what was pending and zeroes it; or reverts untouched |
| Contract.StorageRegistry.UpdateProviderMetadata | smartContract/assembly/contracts/storage-registry.ts:836-859 | Follows the typed call for a registered caller, or reverts untouched |
| Contract.StorageRegistry.RegisterAsUploader | smartContract/assembly/contracts/storage-registry.ts:875-948 | Follows the typed booking: payment and capacity checks, booking, index; or reverts untouched |
| Contract.StorageRegistry.RecordFileUpload | smartContract/assembly/contracts/storage-registry.ts:957-993 | Follows the typed call: usage grows by the size; or reverts untouched |
| Contract.StorageRegistry.RemoveFileUpload | smartContract/assembly/contracts/storage-registry.ts:1002-1034 | Follows the typed call: usage shrinks by the size, not below zero; or reverts untouched |
| Contract.StorageRegistry.UpdateConfig | smartContract/assembly/contracts/storage-registry.ts:1283-1294 | For the admin replaces the configuration, for others reverts untouched |
| Contract.StorageRegistry.AddChallenger | smartContract/assembly/contracts/storage-registry.ts:1301-1310 | For the admin adds exactly that challenger, for others reverts untouched |
| Contract.StorageRegistry.RemoveChallenger | smartContract/assembly/contracts/storage-registry.ts:1317-1329 | For the admin removes exactly that challenger, present or not |
| Contract.StorageRegistry.AddStorageAdmin | smartContract/assembly/contracts/storage-registry.ts:1338-1347 | For the admin adds exactly that storage admin, for others reverts untouched |
| Contract.StorageRegistry.RemoveStorageAdmin | smartContract/assembly/contracts/storage-registry.ts:1354-1366 | For the admin removes exactly that storage admin, present or not |
| Contract.StorageRegistry.SetUploaderPricePerGb | smartContract/assembly/contracts/storage-registry.ts:1373-1385 | For the admin sets the price; a zero price reverts |
| Contract.StorageRegistry.SetPaused | smartContract/assembly/contracts/storage-registry.ts:1392-1404 | For the admin stores the flag that the pause check reads |
| Contract.StorageRegistry.TransferAdmin | smartContract/assembly/contracts/storage-registry.ts:1411-1420 | For the admin hands over to the new address, whom alone the admin check then accepts |
| Contract.StorageRegistry.FundContract | smartContract/assembly/contracts/storage-registry.ts:1425-1432 | Reverts without coins and changes no state |
| Contract.StorageRegistry.Call | smartContract/assembly/contracts/storage-registry.ts:403-1432 | Whatever the call and the names it carries, the datastore follows, or is untouched when the call reverts |
| Contract.Replay | smartContract/assembly/contracts/storage-registry.ts:362-1432 | After every run on the flat datastore it represents the typed state of that run, which is the run of the typed contract as long as the names in the calls are clear |
| Wire.NumberRoundTrip | server/src/args.rs:113-135 | Reading the little-endian bytes of a number gives the number |
| Wire.BytesOfNumber | server/src/args.rs:66-77 | Writing a number that was read gives the bytes |
| Wire.ByteOfNumber | server/src/args.rs:67-77 | Byte i of a number is its i-th base-256 digit, lowest first |
| Wire.BytesOnWire | server/src/args.rs:80-93 | A byte array or string below 4 GiB is its length in four bytes, lowest first, and then itself |
| Wire.ContentOnWire | server/src/args.rs:96-106 | A list is prefixed by the number of its bytes; element k stands behind four bytes and the text for each element before it |
| Wire.FailedReads | server/src/args.rs:113-159 | When each read fails, with which error, and where it leaves the cursor |
| Unicode.ValidIffSpellable | server/src/args.rs:149-152 | A string is accepted if and only if its bytes spell some sequence of Unicode scalar values (section 3 of RFC 3629) |
| Wire.U64At | server/src/args.rs:126-135 | A u64 survives anywhere in a buffer |
| Wire.BytesAt | server/src/args.rs:87-93 | A byte array survives anywhere in a buffer if and only if its length fits 32 bits |
| Wire.TextAt | server/src/args.rs:80-85 | A string survives if and only if it is UTF-8 and its length fits 32 bits |
| Wire.TextIsExact | server/src/args.rs:149-152 | A decoded string re-encodes to exactly the bytes consumed |
| Wire.TextsAt | server/src/args.rs:155-166 | Decoding an encoded list in front of any suffix returns the list and stops at the suffix |
| Wire.TextsFromExact | server/src/args.rs:160-164 | On any bytes the element loop ends within the buffer, and what it returns re-encodes to what it consumed |
| Wire.TextsExact | server/src/args.rs:155-166 | On any bytes the array decoder stays in bounds; its result re-encodes to the bytes consumed if and only if it consumed what the prefix announces, which below 4 GiB means stopping at the announced end |
| Cursor.Args.AddU32 | server/src/args.rs:67-70 | Appends four little-endian bytes |
| Cursor.Args.AddU64 | server/src/args.rs:74-77 | Appends eight little-endian bytes |
| Cursor.Args.AddString | server/src/args.rs:80-85 | Appends the string's encoding, whose round trip is `Wire.TextAt` |
| Cursor.Args.AddBytes | server/src/args.rs:89-93 | Appends the array's encoding, whose round trip is `Wire.BytesAt` |
| Cursor.Args.AddStringArray | server/src/args.rs:96-106 | The loop appends the list's encoding, whose round trip is `Wire.TextsAt` |
| Cursor.Args.NextU32 | server/src/args.rs:113-122 | Value and cursor of the specified read, or an error with the cursor unmoved |
| Cursor.Args.NextU64 | server/src/args.rs:126-135 | The same for eight bytes |
| Cursor.Args.NextBytes | server/src/args.rs:138-146 | The same for a byte array; a failed range check leaves the cursor behind the prefix |
| Cursor.Args.NextString | server/src/args.rs:149-152 | The same for a string; invalid UTF-8 is an error |
| Cursor.Args.NextStringArray | server/src/args.rs:155-166 | The loop over the cursor is the specified read of a list, errors and cursor included |
| Layouts.FieldsAt | smartContract/assembly/structs/StorageNode.ts:65-123 | Reading the first n fields of an encoded struct anywhere in a buffer gives these fields and the cursor behind them |
| Layouts.FailureIsFinal | smartContract/assembly/structs/StorageNode.ts:68-120 | After the first field that cannot be read nothing more is read |
| Layouts.NodeRoundTrip | smartContract/assembly/structs/StorageNode.ts:51-123 | Restoring at the length of the prefix of prefix ++ serialized ++ suffix gives back every field, whatever the object held before, and the offset behind it |
| Layouts.ChallengeRoundTrip | smartContract/assembly/structs/Challenge.ts:43-108 | The same for a challenge |
| Layouts.StatsRoundTrip | smartContract/assembly/structs/PeriodStats.ts:27-85 | The same for period statistics |
| Layouts.ConfigRoundTrip | smartContract/assembly/structs/StorageConfig.ts:23-67 | The same for the configuration |
| Layouts.EncodingIsPrefixFree | smartContract/assembly/structs/StorageNode.ts:51-63 | For any layout, no encoding of fields continues another |
| Layouts.NodesArePrefixFree | smartContract/assembly/structs/StorageNode.ts:51-63 | Different nodes serialize to different bytes, and none continues another |
| Layouts.ChallengesArePrefixFree | smartContract/assembly/structs/Challenge.ts:43-54 | The same for challenges |
| Layouts.StatsArePrefixFree | smartContract/assembly/structs/PeriodStats.ts:27-37 | The same for period statistics |
| Layouts.ConfigsArePrefixFree | smartContract/assembly/structs/StorageConfig.ts:23-31 | The same for configurations |
| Structs.NodeEncoding | smartContract/assembly/structs/StorageNode.ts:51-63 | The nine fields, in the order of the source, each in its own encoding |
| Structs.ChallengeEncoding | smartContract/assembly/structs/Challenge.ts:43-54 | The eight fields in order |
| Structs.StatsEncoding | smartContract/assembly/structs/PeriodStats.ts:27-37 | The seven fields in order |
| Structs.ConfigEncoding | smartContract/assembly/structs/StorageConfig.ts:23-31 | The five fields in order |
| Structs.StorageNode.constructor | smartContract/assembly/structs/StorageNode.ts:27-38 | Initial fields, u64.MAX for never challenged |
| Structs.StorageNode.Serialize | smartContract/assembly/structs/StorageNode.ts:51-63 | The chain of nine adds is the encoding of the fields in layout order |
| Structs.StorageNode.Deserialize | smartContract/assembly/structs/StorageNode.ts:65-123 | Assigns exactly the fields before the first unreadable one, and reports that field or the final offset |
| Structs.StorageChallenge.constructor | smartContract/assembly/structs/Challenge.ts:25-41 | Initial fields, unresolved and not passed |
| Structs.StorageChallenge.Serialize | smartContract/assembly/structs/Challenge.ts:43-54 | The chain of eight adds is the encoding |
| Structs.StorageChallenge.Deserialize | smartContract/assembly/structs/Challenge.ts:56-108 | Assigns exactly the fields before the first unreadable one |
| Structs.StoragePeriod.constructor | smartContract/assembly/structs/PeriodStats.ts:7-25 | Initial counters are zero |
| Structs.StoragePeriod.Serialize | smartContract/assembly/structs/PeriodStats.ts:27-37 | The chain of seven adds is the encoding |
| Structs.StoragePeriod.Deserialize | smartContract/assembly/structs/PeriodStats.ts:39-85 | Assigns exactly the fields before the first unreadable one |
| Structs.StorageConfig.constructor | smartContract/assembly/structs/StorageConfig.ts:7-21 | The default parameters |
| Structs.StorageConfig.Serialize | smartContract/assembly/structs/StorageConfig.ts:23-31 | The chain of five adds is the encoding |
| Structs.StorageConfig.Deserialize | smartContract/assembly/structs/StorageConfig.ts:33-67 | Assigns exactly the fields before the first unreadable one |
| Blobs.Sanitize | server/src/storage.rs:56-64 | Same length, only letters, digits, dash and underscore; clean names are unchanged |
| Blobs.SidecarsAreApart | server/src/storage.rs:26-28 | A sidecar is never a data file, and different data files have different sidecars |
| Blobs.PutAnswer | server/src/storage.rs:137-172 | A put is taken if and only if its bytes fit and its namespace is not empty; it answers the sanitized id it was asked for, or else the generated one, and reading that id gives its bytes; the failures are told apart and change nothing |
| Blobs.HintFetches | server/src/storage.rs:157-187 | What is stored under a hint is what the same hint fetches |
| Blobs.GetFetchesLast | server/src/storage.rs:137-187 | After any sequence of puts, reading a name fetches the bytes of the last put taken for it, by hint or by generated id, or what it fetched before |
| Blobs.GetAnswer | server/src/storage.rs:175-187 | When a get is refused, when it finds nothing, and what it reads |
| Blobs.NoSidecarNoDemands | server/src/storage.rs:31-54 | A blob whose sidecar is missing or unreadable counts as a single copy of nobody's |
| Blobs.PutSetsOneKey | server/src/storage.rs:137-172 | A successful put sets data and metadata under its own sanitized key and leaves every other key alone; a failed one changes nothing |
| Blobs.LastPutWins | server/src/storage.rs:137-172 | After any sequence of puts a key holds the data and metadata of the last put that stored under it |
| Blobs.NoPutKeeps | server/src/storage.rs:137-172 | A key under which no put stored holds what it held before |
| Blobs.GetReadsBlob | server/src/storage.rs:175-187 | A get returns the data of the blob under its sanitized key, or not-found exactly when there is none |
| Blobs.Storage.SizeOfDir | server/src/storage.rs:101-113 | Sums the file sizes in whatever order they come |
| Blobs.Storage.TotalSize | server/src/storage.rs:100-117 | Bytes of all files, sidecars included |
| Blobs.Storage.Put | server/src/storage.rs:137-172 | Check, directory, data, sidecar: the specified put |
| Blobs.Storage.Get | server/src/storage.rs:175-187 | The specified read |
| Blobs.Storage.ListInDir | server/src/storage.rs:228-263 | Exactly one entry per data file, right in size, creation time and metadata, sidecars skipped |
| Blobs.Storage.List | server/src/storage.rs:190-226 | Exactly one right entry for each stored key of the namespaces asked for |
| Quota.PutIsThreeSteps | server/src/storage.rs:137-172 | A put without interference is check, data write and sidecar write of one upload |
| Quota.WriteMovesBytes | server/src/storage.rs:160-171 | A write moves the stored bytes by the file's new size minus its old size |
| Quota.AdmittedIff | server/src/storage.rs:145-147 | A check passes exactly when the body still fits, or the limit is u64.MAX |
| Quota.ActKeepsBound | server/src/api.rs:163-165 | Every step of every upload keeps the bound on stored plus still-to-be-written bytes |
| Quota.QuotaHolds | server/src/storage.rs:145-171 | Under every interleaving of at most k uploads, from any disk: all bytes, and data bytes alone, never exceed the larger of what was there at the start and limit + (k-1) times the largest body that can pass, plus k sidecars when they count |
| Quota.DataStaysWithinQuota | server/src/storage.rs:145-171 | Data that starts within the limit, however many bytes of sidecars there are, stays within limit + (k-1) bodies, and within the limit itself with one upload at a time |
| Quota.DiskStaysWithinQuota | server/src/storage.rs:145-171 | A disk under limit + (k-1) bodies + k sidecars stays under it, so runs may follow each other |
| Quota.QuotaBoundIsReached | server/src/storage.rs:145-171 | For all limits, k and sizes some interleaving from a disk within the limit stores exactly the bound, for all bytes and for data alone |
| Quota.LargestLimitIsNone | server/src/storage.rs:145-147 | Counterexample at the limit u64.MAX, which the configuration can reach: one upload pushes data over the limit |
| FrontEnd.NonBlankKeeps | front/src/pages/MyFiles.jsx:29 | Blank provider names are dropped and every other is kept as often as it is listed |
| FrontEnd.CreditAll | front/src/pages/MyFiles.jsx:34-37 | The inner loop credits each address once per occurrence and nobody else |
| FrontEnd.ComputeExtendPayment | front/src/pages/MyFiles.jsx:24-40 | The total is the sum of the prices of entries with providers; each provider gets the sum of its rounded-down shares; total minus all shares is the sum of the division remainders, less than the number of payees |
| FrontEnd.PreCheckAgainstContract | front/src/pages/StoreFiles.jsx:229-238 | For every amount and every state whose uploader index is in order: the contract alone accepts exactly when the total after the booking exceeds a word and is covered once wrapped; the page alone accepts exactly when more is booked than offered and the booking shrinks by too little, or the difference wraps below zero |
| FrontEnd.PageIsExact | front/src/pages/StoreFiles.jsx:107-109 | For the amounts the page sends, in every reachable state, the contract accepts exactly what the page accepts and, besides, bookings whose total exceeds a word and is covered once wrapped |
| FrontEnd.ContractAloneAccepts | front/src/pages/StoreFiles.jsx:229-238 | A run that reaches the first difference: with 1 GB booked, a need of 2^64 - 1 GB is refused by the page and taken by the contract, which then has 2^64 GB booked |
| FrontEnd.PageAloneAccepts | front/src/pages/StoreFiles.jsx:229-238 | A run that reaches the second: 8 GB booked, the provider gone, and a booking of 5 GB that the page lets through and the contract refuses |

## Left out

- Contract.StorageRegistry.RegisterStorageNode: requires that the caller is an address as the chain supplies it, not empty, whose name spells no other key and is no length-prefixed text (`AddressesAreClear`, `AddressesAreUnreadable`), and that the encoded node index stays below 4 GiB, more than a contract's memory holds; `Manageable` lists what the other entry points require.
- Contract.StorageRegistry.SubmitProof: no Merkle proof is checked, because the code accepts any non-empty proof.
- Contract.Replay: the dispatch of calls and the handling of balances by the chain are modelled only as far as the contract can see them.
- Quota.QuotaHolds: the walk over the directory that measures its size is one atomic step; limits below `u64.MAX`, the exception being `LargestLimitIsNone`.
- Blobs.Storage.SizeOfDir: sizes are unbounded integers, so an overflow of the summed file sizes, which stops or wraps depending on how the server is built, is not modelled.
- Blobs.Storage.Put: errors of the operating system, and files put into the directory by others, are not modelled; the generated id is a parameter, any clean name.
- Blobs.Storage.TotalSize: directories are two levels deep, as the store itself creates them, and overflow is as in `SizeOfDir`.
- Blobs.Storage.List: creation times are what the file system says, as a parameter, and the order of entries is whatever order the directory has.
- Structs.StorageNode.Deserialize: the error text is reported as the number of the field; likewise for the other structs.
- FrontEnd.ComputeExtendPayment: the price of an entry is any natural number, since the floating-point formula behind it is not modelled; addresses that are names of built-in object members are not treated apart.
- FrontEnd.PageIsExact: the page reads the caller's booking when the dialog opens and the capacity at confirmation, and the call runs later; the lemma puts all three in one state.
- Wire.TextAt: the AssemblyScript side of the argument library is not part of the repository; the contract is modelled with the Rust side of the same format, and a boolean is assumed to take one byte.
- Parsing of the arguments of each entry point: each is a row of cursor reads, whose behaviour `Cursor.Args` gives; an argument that is missing reverts the call before it changes anything.
- The read-only views other than the global usage view: they serialize the result of one getter, and `Contract` proves the getters.
- Events emitted by the contract, and the texts of error messages.
- The JSON library: only that what is rendered parses back, as a parameter.
- HTTP routing, upload authentication, peer-to-peer networking, configuration, gRPC clients, deployment scripts.
- The rest of the web page: components, wallet handling, local storage, styling.
- Features that plan.md describes and the code does not have: chunking, replication, assignment.
