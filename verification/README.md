# Span admission and validator-set bookkeeping, in Dafny

This project models two pieces of a Heimdall-style validator node and proves properties of the models.

**Span proposal admission** (`bor/handler.go`). A span is a contiguous range of sidechain blocks with a frozen validator set. `HandleMsgProposeSpan` reads the last span and checks three continuity conditions against the proposal:

- the ID is the last ID plus one;
- the start block is not before the last start block;
- the end block is not before the start block.

Only when all three hold does it freeze the validator set for the new span. It then reads the last span once more and reports success with a `propose-span` event. `NewHandler` routes the proposal message to it and rejects every other message type with a decode error.

The span keeper's implementation is not part of this model. The handler is therefore generic over a keeper state `S` and two arbitrary, possibly failing operations, `getLastSpan` and `freezeSet`. The handler returns the keeper state it leaves behind, together with its result. Span IDs and block numbers are Go `uint64`, so `lastSpan.ID+1` wraps to 0 at the maximum; the model keeps that wrap (`Inc`).

A reference keeper over a table of spans is included. In it, the last span is the newest entry, and freezing appends unless the ID is already frozen. It is used to state what a whole run of messages does to the table.

**Validator store and reconciliation** (`staking/keeper_test.go`). The staking keeper and `helper.UpdateValidators` are pinned down by the keeper tests. The model has these parts:

- *The store.* Validator records are keyed by signer address, and an index maps each validator ID to its current signer. Records are keyed by signer because one rekey must leave two records, the retired one and the new one.
- *`AddValidator`.* It upserts a record and points the record's ID at its signer. It refuses a signer whose stored record belongs to a different ID, so the ID index always names a record of that ID.
- *`UpdateSigner`.* It rewrites the old record with power 0, writes a copy under the new signer and public key, and moves the ID to the new signer. Both writes happen or neither does.
- *`IsCurrentValidatorByAddress`.* A validator is current when it has power, has started by the ack count, and has not ended (end epoch 0 means no end).
- *The validator set.* It is a sequence of validators with unique signers and a cached total power. The cache is an invariant of the type: it always equals the sum of the members' power.
- *`UpdateValidators`.* It folds over the stored records in the order given:
  - a member whose record is no longer current is removed;
  - a current record whose signer is not a member is appended;
  - a member whose record is still current is replaced in place by the record.

  The fold is proved equal to an order-preserving reference, "surviving members followed by joining records". That equation gives membership, contents and idempotence. Each keeper test scenario is a lemma quantified over all stores and sets of the shape the test builds.

## Model

| member | source | states |
|---|---|---|
| BorHandler.HandleMsgProposeSpan | bor/handler.go:24-76 | An unreadable last span gives span-not-found and changes nothing. Any one broken continuity condition (wrong ID, start before the last start, end before start) gives not-in-continuity and changes nothing. For a continuous proposal, a failed freeze gives unable-to-freeze and changes nothing; after a successful freeze the frozen state is what remains, and a failed second read of the last span gives span-not-found. The state changes only by a freeze of a continuous proposal. Success holds exactly when read, continuity, freeze and re-read all succeed, and its event carries "true", the span ID twice and the start block. |
| BorHandler.NewHandler | bor/handler.go:12-22 | A span proposal's outcome is exactly that of `HandleMsgProposeSpan`. A decode error arises for exactly the messages that are not span proposals, and such a message changes nothing. A successful proposal's event carries the proposal's ID and start block. |
| BorHandler.AdmittedContinuesLastSpan | bor/handler.go:35-44 | An admitted proposal had a last span. Its ID is one past the last ID (away from the uint64 maximum), and its start is at or after the last start and at or before its end. |
| BorHandler.Inc | bor/handler.go:36 | The uint64 increment adds one below the maximum and wraps to 0 at it. |
| BorHandler.IdWrapsAfterMaximum | bor/handler.go:36 | After a span whose ID is the uint64 maximum, a proposal with ID 0 is admitted and frozen. |
| BorHandler.HandleKeepsContiguous | bor/handler.go:29-51 | Against the reference span table, one handled message keeps the table contiguous: each ID is one past the previous and start blocks never go back. The table only grows at its end. |
| BorHandler.DeliverKeepsContiguous | bor/handler.go:12-58 | Any run of messages keeps a contiguous table contiguous and never rewrites a stored span. |
| ValidatorSets.Add | staking/keeper_test.go:280-285 | Adding is refused exactly when the signer is already a member. Otherwise the validator is appended, is found by `HasAddress`, and the total power grows by exactly its power. |
| ValidatorSets.GetByAddress | staking/keeper_test.go:251-256 | The index is -1 exactly when no member has the signer, and then nothing is returned. Otherwise the returned validator is the member at that index and has that signer. |
| ValidatorSets.HasAddress | staking/keeper_test.go:217 | True exactly when some member has the signer. |
| ValidatorSets.TotalVotingPower | staking/keeper_test.go:218 | The cached total is the sum of the members' power. |
| ValidatorSets.IndexOf | staking/keeper_test.go:251-252 | The position of the signer in the set, or -1 exactly when it is absent. |
| StakingKeeper.GetValidatorInfo | staking/keeper_test.go:26-30 | A lookup fails with no-validator exactly when no record is stored under the signer. A found record has that signer. |
| StakingKeeper.GetSignerFromValidatorID | staking/keeper_test.go:31-38 | Unmapped exactly when the ID is not indexed. A mapped ID names a stored record of that same ID. |
| StakingKeeper.AddValidator | staking/keeper_test.go:16-38 | Refused (signer conflict) exactly when the signer's stored record has another ID. On success the record reads back exactly, the ID maps to its signer, every other ID keeps its signer, no other record changes, none is deleted, and the stored set is kept. |
| StakingKeeper.UpdateSigner | staking/keeper_test.go:60-88 | Fails exactly when the old signer has no record (no-validator), or the new signer's record belongs to another ID (signer conflict). On success with a new signer, the old record remains with power 0 and the new signer holds the record with the new key and the old power. Rekeying to the same signer only changes the public key. On success the ID maps to the new signer, every other ID keeps its signer, the stored validator set is kept, and the store gains the new signer, loses nothing, and leaves every other record alone. |
| StakingKeeper.UpdateSignerWrites | staking/keeper_test.go:64 | A successful rekey to a different signer leaves exactly the record map with the retired record and the rekeyed copy written over it. |
| StakingKeeper.IsCurrentValidatorByAddress | staking/keeper_test.go:126-131 | True only for a stored record with power, started by the ack count, and not ended. Every stored record meeting those conditions is current. |
| StakingKeeper.UpdateValidatorSetInStore | staking/keeper_test.go:136-142 | The stored set, read back with `GetValidatorSet`, is exactly the set written, and records and the ID index are untouched. |
| StakingKeeper.GetAllValidators | staking/keeper_test.go:90-92 | The listing holds every stored record exactly once, with unique signers, and has as many entries as there are records. |
| StakingKeeper.EnumerationFinds | staking/keeper_test.go:169-171 | Looking a stored signer up in a listing of the store finds that signer's record. |
| Reconciliation.Reconcile | staking/keeper_test.go:169-173 | One record against the set: a non-current member is cut out, a current non-member is appended, and a current member is replaced where it stands. Everything else in the set keeps its place. |
| Reconciliation.ReconcileSigners | staking/keeper_test.go:169-173 | After one step, every member was a member before or carries the record's own signer. |
| Reconciliation.UpdateValidators | staking/keeper_test.go:169-173 | Every resulting member was a member before or is one of the records, and the set never grows by more than the number of records. |
| Reconciliation.UpdateValidatorsMatchesReference | staking/keeper_test.go:169-182 | With records of distinct signers, the result is the surviving members in their original order followed by the joining current records in listing order. |
| Reconciliation.UpdateValidatorsMembership | staking/keeper_test.go:216-217 | A signer with a record is a member afterwards exactly when that record is current. A signer without a record is a member exactly when it was one before. |
| Reconciliation.UpdateValidatorsContents | staking/keeper_test.go:180-182 | Every resulting member with a record is exactly that record, and one without a record is unchanged from before. |
| Reconciliation.UpdateValidatorsIdempotent | staking/keeper_test.go:239-243 | Reconciling a second time against the same records changes nothing. |
| KeeperScenarios.ValidatorScenario | staking/keeper_test.go:16-39 | Adding a validator whose signer has no record succeeds; the record then reads back as that validator, and its ID maps to its signer. |
| KeeperScenarios.UpdateSignerScenario | staking/keeper_test.go:42-93 | Rekeying the only stored validator leaves the old signer at power 0 and the new signer at the old power. The ID maps to the new signer, and a listing of the store has two records. |
| KeeperScenarios.CurrentValidatorScenario | staking/keeper_test.go:95-134 | For both rows of the test table (power 0; start epoch after the ack count), the stored validator is not current. |
| KeeperScenarios.AddAllAppends | staking/keeper_test.go:280-285 | Adding validators with distinct new signers one after another appends them all, in order. |
| KeeperScenarios.LoadValidatorSetScenario | staking/keeper_test.go:274-291 | The set built from validators with distinct signers holds them in order with their summed power, and storing it reads it back unchanged. |
| KeeperScenarios.RemoveScenario | staking/keeper_test.go:146-183 | With the first member's record moved to start epoch 20, past the ack count, reconciling drops exactly that member. The rest stay unchanged and in order. |
| KeeperScenarios.AddScenario | staking/keeper_test.go:185-219 | After a current validator with a new signer is stored, reconciling grows the set by one and makes it a member. The total power grows by exactly its power. |
| KeeperScenarios.RekeyScenario | staking/keeper_test.go:221-262 | After the first member is rekeyed, reconciling keeps the size and drops the old signer (`GetByAddress` gives -1). The new signer is present with the new public key and the validator's ID, and the total power is unchanged. |
| KeeperScenarios.RekeyReconciled | staking/keeper_test.go:238-259 | Against the rekeyed store, the other members survive and the rekeyed record is appended at the end; neither the old nor the new signer is among the survivors. |
| KeeperScenarios.JoinersSingle | staking/keeper_test.go:206-218 | When exactly one current record belongs to a non-member, it is the only one to join. |
| KeeperScenarios.SurvivorsKeepPower | staking/keeper_test.go:249-259 | Members whose records are current and carry the same power all survive, and the total power is kept. |

## Left out

- Proposer selection: `IncrementAccum` (staking/keeper_test.go:228), accumulator carry-over across a rekey, and the proposer identity. The assertions on them are commented out (staking/keeper_test.go:258, 261). Accumulators are otherwise carried as data; what reconciliation does to them is stated on the `Reconciliation.Reconcile` line below.
- `ValidatorSet.Copy`: with value semantics every set is already a copy.
- KeeperScenarios.UpdateSignerScenario: starts from a store that holds the one record, not from the `AddValidator` call that put it there.
- KeeperScenarios.LoadValidatorSetScenario: leaves out the store writes `LoadValidatorSet` makes through `AddValidator`. It states the validator-set half of the helper; the store half is the contract of `StakingKeeper.AddValidator`.
- Internals of `FreezeSet` and `GetLastSpan`: their keeper code is not part of this model, so the handler takes them as arbitrary operations that may fail.
- Logging, `k.Codespace()`, and the encoding of event attributes as decimal strings: the event is kept as typed fields.
- The Cosmos SDK's discarding of a failed message's writes. The handler itself returns span-not-found after a successful freeze when the second read fails, and the model shows that path with the frozen state.
- The store's iteration order: `GetAllValidators` lists the records in any order, and every property is stated for all orders.
- `AddValidator`: the conflict rule refuses any signer whose record has a different ID. It does not single out a "still-active" ID, because the ID index must keep naming a record of the same ID.
- Reconciliation is keyed by signer, not by validator ID. A rekeyed validator leaves under its old signer and joins under its new one, at the end of the set. The test does not assert the new member's position: staking/keeper_test.go:255 is commented out. That commented-out line expected index 0, meaning the rekeyed validator keeps its place; the model departs from that expectation and appends it last (`KeeperScenarios.RekeyReconciled`).
- Reconciliation.Reconcile: a member whose record is still current is overwritten in place by the whole record, accumulator included. The model does not keep the member's accumulator, nor carry a rekeyed validator's accumulator over to its new signer. So an accumulator that `IncrementAccum` advanced in the stored set is reset to the record's value, and `UpdateValidatorsContents`, `UpdateValidatorsMatchesReference` and `KeeperScenarios.RekeyReconciled` state that reset. The reconciliation code is not part of this model, and the test leaves the accumulator unasserted.
- ValidatorSets.Add: appending the new member at the end is a modelling choice. The tests never assert a member's position, so the order in `Reconciliation.UpdateValidatorsMatchesReference` (survivors, then joiners) follows from that choice.
- Integer widths other than span IDs: powers, epochs and IDs are unbounded naturals.
- The checkpoint state machine, the checkpoint CLI (`checkpoint/cli/tx.go`), the RLP type registry (`auth/types/pulp.go`) and the bank module files: they are I/O plumbing or test harness, or their handler code is not part of this model.
