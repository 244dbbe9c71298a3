# Mononium core, modelled and proved in Dafny

Mononium is a proof-of-stake blockchain node written in Rust. This project models its
deterministic core: the sparse Merkle tree that stores the state, the state machine that
applies blocks, fees, stakes, elections and slashes, the commit tracker that decides
finality, the transaction pool, the governance engine, and the smaller algorithms the
node's agreement rests on (block reward, proposer schedule, transaction root, rate limiter).
`dafny verify dfyconfig.toml` checks everything.

## Form

Code that changes things step by step is imperative here too. `SparseMerkleTree`,
`StateMachine`, `CommitTracker`, `Mempool`, `GovernanceEngine` and `RateLimiter` are classes
with the fields of the original; their methods and loops are proved against functions on
values (`TxStep`, `RunBlock`, `Record`, `Submit`, `Allowed` and so on), or, for the tree and
the pool, directly against a mathematical reading (the recursive Merkle root; the pool as a
set). The properties are then lemmas about those functions, most of them over whole runs.

| module | models | main results |
|---|---|---|
| `Trie`, `TriePath`, `Hashing`, `StateKeys` | `crypto/trie.rs`, key layout | the level-by-level cached root is the recursive 256-level root, which splits the leaves by the bits of their keys; equal roots mean equal contents, or the hash fails on a node or value of the two trees; all state keys have a stated layout and differ, so the tree is a family of maps |
| `State`, `StateMachineObject` | `core/state.rs` | every handler, loop and block computes its transition function and keeps the tree in step with the ledger |
| `TxRules`, `Effects`, `Ledger`, `Fees` | what a transaction and a block do | when a transaction is applied, charged or refused and the whole state it leaves, in terms of the fields before it; exact ledger, exact and fair fee shares, exact credits over runs |
| `Aborts` | arithmetic that aborts the node | exactly when a transaction, a block and a run abort, and checks that rule it out |
| `Lifecycle`, `Replay`, `Election` | runs of blocks, cooldowns, thaws, elections, slashes | life-cycle invariant, freeze safety, no minting, replay safety and its exact limit, elections that seat exactly the first in the order of precedence, and when list and set of seats depend on enumeration order |
| `Finality` | `consensus/finality.rs` | exact two-thirds finality, its exact limit and what holds beyond it, accountable safety |
| `Mempool` | `mempool/` | the counter, the caps and the selection |
| `Governance`, `GovernanceObject` | `governance/engine.rs` | the engine keeps its items in the machine's tree; what each call is answered and writes, limits and ballots over every run, what the counters count and when that is the active proposals, what execution means, when the voting window holds |
| `TxRoot`, `Supply`, `Proposer`, `RateLimiting` | single algorithms | canonical and binding root, capped emission, fair rounds, the sharp rate bound |
| `Primitives`, `Sorting`, `Sums` | integer widths, the stable library sort, sums over maps | shared lemmas |

## How values are modelled

- 256-bit amounts are natural numbers. Where the code adds or multiplies them unchecked, an
  overflow aborts the node: it is `Panic`, `Aborted`, `SlashPanic` or `None`, and the methods
  require that it does not happen; `Aborts` says exactly when it does. Saturating and checked
  operations are written out.
- 64-bit nonces and eras and the 128-bit fee total wrap, as the release build does.
- Addresses and identifiers are 32-byte strings read as big-endian numbers; byte order is
  numeric order. Hashes are an arbitrary function to 32-byte digests. Every such function has
  collisions somewhere, so no result speaks of collisions at large: each names the inputs, hashed
  by the very computations it compares, that would have to collide (or, for a value stored in one
  tree only, to hash to the digest reserved for an absent leaf). Where keys must not clash, the
  condition ranges over the finitely many keys in use (`StateKeys.Separated`).
- Clock readings and the current era are parameters. The iteration order of hash maps is left open.
- The state machine writes every account and entry to the tree, under its namespaced key, and
  keeps beside it the decoded ledger as two maps, which its handlers read. `Synced` says that the
  tree holds exactly that ledger, beside the items of other namespaces; every method keeps it,
  and so does every write of the governance engine. `StateKeys` shows that reading and
  writing the tree is reading and writing the maps, and that the root commits to them.

## Where the code differs from its documentation

The model follows the code. Each of these is a proved statement or a case of one.

- A transfer or burn to oneself loses the amount: the credited copy is overwritten by the
  sender's account (`Ledger.TxLedger`, `Effects.AppliedEffect`).
- An unstake that would exceed the stake together with an earlier one is refused after fee and
  nonce were applied, and then charged the fee again (`Ledger.FailureFrame`,
  `Replay.FailedTxFrame`).
- Registration deposits and released stake are credited to nobody (`Ledger.TxLedger`,
  `Lifecycle.CooldownLedger`).
- Blocks pass era 0 to the unstake handler, so the documented wait of 168 eras holds exactly for
  blocks of era 0 (`Lifecycle.BlockUnstakeRelease`).
- Elections do not demote: a validator that loses its seat stays Active
  (`Election.ActiveMeansSeatedIff`). Ties in stake and registration era are decided by the order
  in which a hash set enumerates addresses. Nodes can seat different sets exactly when the last
  seat is tied with the first place without one (`Election.SetIndependentIff`), and can list the
  seats, and so schedule proposers, differently exactly when any tie reaches a seat
  (`Election.OrderIndependentIff`).
- A validator frozen within an era keeps its place in the active set, and its share of the fees,
  until the next boundary (`Fees.FrozenHolderPaid`, `Fees.SlashedHolderPaid`,
  `Election.EraBoundaryEffect`).
- Amount, fee and deposit are added up unchecked before the sender's balance is looked at. Any
  account with its current nonce, even without money, can so abort the node with a transfer of
  2^256 - 1 (`Aborts.PoorSenderAborts`, `Aborts.TxAbortsIff`).
- The product of a block's fees and an active stake can exceed 256 bits within the maximum
  supply, and then the block aborts (`Aborts.FeeProductCanAbort`, `Aborts.BlockAbortsIff`).
- Finality ignores block hashes (`Finality.FinalWithoutAgreement`), and is exact only while three
  times the total stake fits in 256 bits (`Finality.ExactIffTotalFits`). Beyond that a supermajority
  can fail to finalize, and from a total of 2^255 on any vote whose threefold weight fits does
  (`Finality.FinalIffSomePasses`).
- One window length can let through twice the rate limit, or one message less when check and
  count read the same time; these are the sharp bounds (`RateLimiting.SharpBound`).
- Nonces are 64-bit and wrap, so replay protection holds for runs of up to 2^64 transactions and
  no longer ones (`Replay.ReplaySafeIff`).
- The voting window of seven eras holds unless its end wraps around (`Governance.VotingWindow`).
- The counters that limit active proposals do not count them. Submitting an identifier again
  replaces an active proposal, another proposer's included, and closing one (which only the
  unfinished tally would do) frees nothing; each time a slot stays taken
  (`Governance.OverwriteKeepsSlot`). A counter is the number of active proposals exactly as long
  as neither has happened (`Governance.CounterExactIff`), and otherwise exceeds it by how often it
  has (`Governance.CounterExcess`).
- Governance deposits are compared with the balance but never taken or returned: no call of the
  engine changes an account (the frames of `GovernanceObject.GovernanceEngine`).

These are remarks on the model; no lemma states them.

- The checks for another active proposal on the same parameter, and for votes before a
  cancellation, always answer no; the model has neither.
- The doc comments giving amounts in the governance bounds are off by a factor of ten; the model
  uses the constants.

## Model

Paths are relative to the repository root.

| member | source | states |
|---|---|---|
| Hashing.PairBinding | src/mononium-lib/src/crypto/trie.rs:168-173 | equal digests of two 32-byte pairs come from equal pairs, or these two pairs collide |
| Hashing.BigEndianInjective | src/mononium-lib/src/crypto/trie.rs:141-147 | the leaf position read from a 32-byte digest determines the digest |
| Trie.ComputeDefaults | src/mononium-lib/src/crypto/trie.rs:53-64 | the table's entry at each depth is the digest of the all-empty subtree of that depth |
| Trie.SparseMerkleTree.constructor | src/mononium-lib/src/crypto/trie.rs:94-103 | a new tree has no leaves |
| Trie.SparseMerkleTree.Insert | src/mononium-lib/src/crypto/trie.rs:121-128 | exactly the leaf under the key's digest changes, and no stale root stays cached |
| Trie.SparseMerkleTree.Get | src/mononium-lib/src/crypto/trie.rs:130-135 | the stored value of a key, if any |
| Trie.SparseMerkleTree.Root | src/mononium-lib/src/crypto/trie.rs:104-119 | cached or not, the answer is the recursive 256-level Merkle root of the current leaves, which stay as they are; `TriePath.RootSplitsByBits` says where each key goes |
| Trie.SparseMerkleTree.ComputeRoot | src/mononium-lib/src/crypto/trie.rs:137-186 | climbing level by level over a map of occupied positions gives the recursive root |
| Trie.SparseMerkleTree.HashLeaves | src/mononium-lib/src/crypto/trie.rs:141-147 | the bottom map holds the leaf digest at exactly the occupied positions |
| Trie.SparseMerkleTree.MergeLevel | src/mononium-lib/src/crypto/trie.rs:149-176 | from the nodes of one level, visited in any order, come exactly the nodes of the next, each with its subtree's digest |
| Trie.EmptySubtree | src/mononium-lib/src/crypto/trie.rs:46-64 | a subtree without leaves has the default digest of its depth |
| Trie.ParentDigest | src/mononium-lib/src/crypto/trie.rs:153-173 | hashing a node with its stored or default sibling, in left-right order, gives the parent's subtree digest |
| Trie.NextLevel | src/mononium-lib/src/crypto/trie.rs:149-176 | a map with a right digest above each node, and nothing else, is the complete next level |
| Trie.TopLevel | src/mononium-lib/src/crypto/trie.rs:178-186 | after 256 levels exactly position 0 is left, and it holds the root |
| Trie.Replay | src/mononium-lib/src/crypto/trie.rs:104-135 | in every sequence of calls each lookup sees the last write to its key and each root is the Merkle root of the last writes so far |
| Trie.LastWritesDetermineLeaves | src/mononium-lib/src/crypto/trie.rs:121-128 | the leaf map is determined by the last write under every digest |
| Trie.SubtreeBinding | src/mononium-lib/src/crypto/trie.rs:137-186 | equal subtree digests agree on the leaf digest below, or two nodes at one place of its path are hashed from different inputs to the same digest |
| Trie.LeafBinding | src/mononium-lib/src/crypto/trie.rs:137-186 | trees with one root agree on every key, unless the hash fails at that key: on a node of its path, on its two values, or on a value stored in one tree only |
| Trie.RootBinding | src/mononium-lib/src/crypto/trie.rs:104-119 | equal leaf maps have equal roots, and equal roots mean equal leaf maps unless the hash fails at some stored key of the two trees |
| Trie.RootsAgreeIffLastWritesAgree | src/mononium-lib/src/crypto/trie.rs:104-128 | two histories end in the same root if and, unless the hash fails on the two trees, only if their last writes agree under every digest |
| TriePath.PathBit | src/mononium-lib/src/crypto/trie.rs:141-156 | at every level the side of the path is one bit of the key digest: bit d % 8, counted from the lowest, of byte 31 - d / 8 |
| TriePath.RootSplitsByBits | src/mononium-lib/src/crypto/trie.rs:137-186 | the root is the digest of the tree that splits the leaves by their key bits, highest bit of the first byte first, and hashes left before right |
| TriePath.RootHalves | src/mononium-lib/src/crypto/trie.rs:137-186 | the left half of the root holds the keys whose first byte is below 128, the right half the others |
| StateKeys.SubKeyInjective | src/mononium-lib/src/governance/engine.rs:25-49 | the textual sub-keys of proposals, votes, parameters and counters never coincide |
| StateKeys.FullKeyInjective | src/mononium-lib/src/crypto/trie.rs:210-242 | no two items of state, in any namespaces, share a tree key |
| StateKeys.KeyLayout | src/mononium-lib/src/governance/engine.rs:25-49 | every tree key byte by byte: namespace byte, then the 32 big-endian bytes of an address or a text ending in 64 lower-case hexadecimal digits that read back as the identifier or address |
| StateKeys.WriteIsLocal | src/mononium-lib/src/core/state.rs:365-391 | writing one item changes what is read for that item only, unless the two keys have the same hash |
| StateKeys.ReadRefines | src/mononium-lib/src/core/state.rs:90-105 | a lookup in the tree is a lookup in the map of stored items, as long as the keys in use have different hashes |
| StateKeys.WriteRefines | src/mononium-lib/src/core/state.rs:365-391 | a write to the tree is a write to the map of stored items, under the same condition |
| StateKeys.ItemsDetermineLeaves | src/mononium-lib/src/core/state.rs:365-391 | the stored items determine the tree's contents, whatever order they were written in |
| StateKeys.AccountItem | src/mononium-lib/src/core/state.rs:365-369 | writing an account to the ledger writes its one item |
| StateKeys.ValidatorItem | src/mononium-lib/src/core/state.rs:372-377 | writing a validator entry to the ledger writes its one item |
| StateKeys.OtherItem | src/mononium-lib/src/core/state.rs:382-385 | writing an item of another namespace writes that one item and no part of the ledger |
| StateKeys.StateRootCommits | src/mononium-lib/src/core/state.rs:82-86 | equal items have equal roots, and equal roots mean equal items unless two keys in use have the same hash or the hash fails on the two trees |
| StateKeys.LedgerRootCommits | src/mononium-lib/src/core/state.rs:82-86 | under the same exceptions two states have one root exactly when accounts, validators and all other items are equal |
| StateMachineObject.StateMachine.constructor | src/mononium-lib/src/core/state.rs:65-80 | the machine starts with the given accounts, later pairs replacing earlier ones, and a tree holding exactly them |
| StateMachineObject.StateMachine.SetAccount | src/mononium-lib/src/core/state.rs:365-369 | exactly one account is replaced, and the tree stays in step |
| StateMachineObject.StateMachine.SetValidator | src/mononium-lib/src/core/state.rs:372-377 | exactly one entry is replaced and its address indexed, and the tree stays in step |
| StateMachineObject.StateMachine.GovernanceInsert | src/mononium-lib/src/core/state.rs:382-385 | exactly one item of another namespace is written; the ledger is untouched and the tree stays in step |
| StateMachineObject.StateMachine.StateRoot | src/mononium-lib/src/core/state.rs:82-86 | the root of every tree that holds the current ledger, as long as the keys in use have different hashes |
| StateMachineObject.StateMachine.CreditBalance | src/mononium-lib/src/core/state.rs:306-312 | the account, created when missing, gains the amount up to the 256-bit maximum |
| StateMachineObject.StateMachine.TryTransfer | src/mononium-lib/src/core/state.rs:317-347 | outcome, sender and state are those of the transfer function: nonce, then funds, then the recipient's credit; `TxRules.BodyAppliedIff` says when that succeeds |
| StateMachineObject.StateMachine.TryDeductFeeOnly | src/mononium-lib/src/core/state.rs:351-362 | outcome and sender are those of a fee-only transaction, and the state is untouched |
| StateMachineObject.StateMachine.ApplyRegisterValidator | src/mononium-lib/src/core/state.rs:413-446 | outcome, sender and state are those of the registration function |
| StateMachineObject.StateMachine.ApplyStake | src/mononium-lib/src/core/state.rs:453-511 | outcome, sender and state are those of the stake function, the late overflow refusal included |
| StateMachineObject.StateMachine.ApplyRegisterAndStake | src/mononium-lib/src/core/state.rs:518-569 | outcome, sender and state are those of the combined registration |
| StateMachineObject.StateMachine.ApplyUnstake | src/mononium-lib/src/core/state.rs:577-657 | outcome, sender and state are those of the unstake function, with the fee already taken when a cumulative unstake is refused |
| StateMachineObject.StateMachine.ApplyTx | src/mononium-lib/src/core/state.rs:121-227 | one loop iteration is one transaction step: skip, apply, fail with a charge, or fail free |
| StateMachineObject.StateMachine.ApplyBlock | src/mononium-lib/src/core/state.rs:116-240 | the block's state, fee total and counts are those of running its transactions in order and distributing the fees; the reported root is that of the resulting ledger |
| StateMachineObject.StateMachine.Distribute | src/mononium-lib/src/core/state.rs:265-303 | the loop over sorted stakes pays what the distribution function says |
| StateMachineObject.StateMachine.SetActiveSet | src/mononium-lib/src/core/state.rs:244-246 | only the active set changes |
| StateMachineObject.StateMachine.ProcessUnstakingCooldown | src/mononium-lib/src/core/state.rs:669-715 | the entry after the cooldown is that of the cooldown function |
| StateMachineObject.StateMachine.Thaw | src/mononium-lib/src/core/state.rs:726-752 | the entry after thawing, and the answer whether it was due |
| StateMachineObject.StateMachine.ThawEach | src/mononium-lib/src/core/state.rs:758-766 | the loop thaws the list in order and counts |
| StateMachineObject.StateMachine.Election | src/mononium-lib/src/core/state.rs:779-840 | state and elected addresses are those of the election function |
| StateMachineObject.StateMachine.Slash | src/mononium-lib/src/core/state.rs:851-908 | state and reported amounts are those of the slash function |
| TxRules.AppliedIff | src/mononium-lib/src/core/state.rs:121-218 | a transaction is applied if and only if chain, account, nonce, funds, validator entry, status and amount before it are as its body requires |
| TxRules.BodyAppliedIff | src/mononium-lib/src/core/state.rs:317-657 | so each body succeeds if and only if the nonce is current and its own requirements hold; a missing recipient is no obstacle |
| TxRules.RefusalRules | src/mononium-lib/src/core/state.rs:121-227 | any other transaction that does not overflow is skipped, charged or refused free: charged exactly when its price, one fee or two, is affordable; the state left is the old one with the sender charged |
| TxRules.AppliedState | src/mononium-lib/src/core/state.rs:317-657 | the whole state after an applied transaction: the sender's account written last, recipient or burn address credited, the exact validator entry and index |
| TxRules.RunTxsIsInOrder | src/mononium-lib/src/core/state.rs:121-227 | a list of transactions runs first to last; its fee total is that of the paying ones modulo 2^128, its counts are those of the applied and of all others |
| TxRules.BlockIsInOrder | src/mononium-lib/src/core/state.rs:116-240 | a block is its transactions in order and then the fees they paid handed out among the active set, which changes accounts only |
| Effects.AppliedEffect | src/mononium-lib/src/core/state.rs:215-218 | after an applied transaction every balance and every stake, address by address; a sender receives nothing from itself |
| Effects.SuccessEffect | src/mononium-lib/src/core/state.rs:317-347 | the handlers debit the sender and credit recipient or stake by exactly the named amounts |
| Effects.UnstakeAccumulates | src/mononium-lib/src/core/state.rs:628-655 | unstakes add up under the first release era, never beyond the stake, and touch no other entry |
| Effects.SlashPayout | src/mononium-lib/src/core/state.rs:867-900 | burn address and reporter gain their shares, the offender's entry keeps the rest and is frozen for 72 eras, nothing else changes, each share rounded down |
| Effects.SlashOutcome | src/mononium-lib/src/core/state.rs:851-866 | a slash goes through exactly for a validator that is not frozen, whatever else it is doing, and whose ninetyfold stake fits; otherwise nothing changes |
| Effects.SlashAccounts | src/mononium-lib/src/core/state.rs:873-893 | the two accounts paid exist afterwards, and nothing but balances changes |
| Effects.EventStaysExact | src/mononium-lib/src/core/state.rs:265-347 | within the supply bound every saturating credit of an event, shares, remainder and slash, adds exactly its amount, and so does every transfer to another account |
| Effects.RunCreditsExact | src/mononium-lib/src/core/state.rs:265-347 | the same for every event of every run |
| Ledger.FailureFrame | src/mononium-lib/src/core/state.rs:317-657 | a failing body changes no state, and the sender's copy only for a cumulative-unstake refusal |
| Ledger.TxLedger | src/mononium-lib/src/core/state.rs:121-227 | money before equals money after plus the fee charged plus the losses: deposits, self-transfers, second fees |
| Ledger.TxsLedger | src/mononium-lib/src/core/state.rs:121-227 | the same over any list of transactions; the 128-bit fee total never exceeds what was charged and is exact below 2^128 |
| Ledger.SatTotalExact | src/mononium-lib/src/core/state.rs:271-279 | the saturating total is the true total cut off at the 256-bit maximum |
| Ledger.ShareSumBounds | src/mononium-lib/src/core/state.rs:287-295 | the rounded shares together stay within the pot and fall short by less than one unit per holder |
| Ledger.ShareSumAtMostFees | src/mononium-lib/src/core/state.rs:287-302 | the remainder is never negative and is smaller than the number of holders |
| Ledger.DistributeLedger | src/mononium-lib/src/core/state.rs:265-303 | distribution adds exactly the fees to the balances, or nothing when no active stake exists |
| Ledger.BlockLedger | src/mononium-lib/src/core/state.rs:116-240 | the exact ledger of a block: fees return in full when the active set has stake, and everything else taken is lost |
| Lifecycle.TxKeepsLifecycle | src/mononium-lib/src/core/state.rs:413-657 | every transaction keeps: entries under their own address, index equal to the stored keys, pending and recorded stake positive and at most the stake |
| Lifecycle.EventKeepsLifecycle | src/mononium-lib/src/core/state.rs:116-908 | so does every block, cooldown, thaw, election and slash |
| Lifecycle.ElectionEffect | src/mononium-lib/src/core/state.rs:779-840 | an election makes the elected Active, elects only stored electable entries, and changes nothing else |
| Lifecycle.ThawEffect | src/mononium-lib/src/core/state.rs:726-766 | thawing a list thaws each listed validator whose freeze is over once, to Thawed with the minimum stake or else Registered, counts it once, and changes nothing else |
| Lifecycle.FrozenNotElected | src/mononium-lib/src/core/state.rs:788-799 | a frozen validator is elected in no era |
| Lifecycle.EventKeepsFrozen | src/mononium-lib/src/core/state.rs:453-908 | before the end of its freeze no event touches a frozen validator's entry |
| Lifecycle.FreezeSafety | src/mononium-lib/src/core/state.rs:453-908 | the same over every run of events |
| Lifecycle.HoldersWeight | src/mononium-lib/src/core/state.rs:271-279 | the stake of a duplicate-free active set is the weight of its members |
| Lifecycle.CooldownLedger | src/mononium-lib/src/core/state.rs:669-715 | a due cooldown removes exactly the pending amount from the ledger, credits nobody, and leaves the entry Staked with the minimum stake or Registered; otherwise nothing changes |
| Lifecycle.BlockUnstakeRelease | src/mononium-lib/src/core/state.rs:169-179 | an unstake in a block is due from era 168 on, and so waits 168 eras from the block's era if and only if that era is 0 |
| Lifecycle.SlashSplitExact | src/mononium-lib/src/core/state.rs:867-871 | slashed plus remaining is the stake; burned plus bounty is the slashed amount, less one unit exactly when it is no multiple of ten |
| Lifecycle.SlashLedger | src/mononium-lib/src/core/state.rs:851-908 | a slash loses that one unit or nothing, whoever the reporter is; a refused slash changes nothing |
| Lifecycle.ThawLedger | src/mononium-lib/src/core/state.rs:758-766 | thawing moves no money |
| Lifecycle.ElectionLedger | src/mononium-lib/src/core/state.rs:779-840 | elections move no money |
| Lifecycle.EventNeverMints | src/mononium-lib/src/core/state.rs:116-908 | no event increases total balances plus stakes |
| Lifecycle.NoMinting | src/mononium-lib/src/core/state.rs:116-908 | over every run the supply never grows and the invariants hold at its end |
| Lifecycle.ReachableOk | src/mononium-lib/src/core/state.rs:65-80 | from any genesis within 256 bits every reachable state keeps the life-cycle invariant and the supply bound |
| Replay.TxNonces | src/mononium-lib/src/core/state.rs:121-227 | only the sender's nonce moves, by one, and only on success or after a charged cumulative-unstake refusal; success needs the current nonce |
| Replay.FailedTxFrame | src/mononium-lib/src/core/state.rs:219-226 | a transaction that does not succeed touches only its sender, who pays nothing, one fee, or two fees and a nonce |
| Replay.TxExtendsLog | src/mononium-lib/src/core/state.rs:121-227 | a succeeding pair is new as long as fewer than 2^64 transactions came before |
| Replay.TxsExtendLog | src/mononium-lib/src/core/state.rs:121-227 | so it is for every list of transactions |
| Replay.EventNonces | src/mononium-lib/src/core/state.rs:229-303 | outside its transactions no event moves a nonce |
| Replay.ReplaySafety | src/mononium-lib/src/core/state.rs:116-303 | over every run of at most 2^64 transactions no (sender, nonce) pair succeeds twice, wherever the nonces start |
| Replay.NonceNeverDecreases | src/mononium-lib/src/core/state.rs:121-227 | a nonce that the run cannot wrap never decreases, and grows by at most the number of transactions |
| Replay.ReplaySafeIff | src/mononium-lib/src/core/state.rs:337-337 | replay safety holds for all runs of at most a given length if and only if that length is at most 2^64 |
| Fees.DistributedBalances | src/mononium-lib/src/core/state.rs:284-302 | every balance after distribution: its shares, plus the remainder for the first in order |
| Fees.FairPayout | src/mononium-lib/src/core/state.rs:265-303 | each holder gets its rounded-down proportional share; the remainder goes to the holder with the largest stake and, among equals, the smallest address; nobody else is touched |
| Fees.FairPayoutByAddress | src/mononium-lib/src/core/state.rs:265-303 | the same address by address: the shares are of the total stake of the active set, and the one paid the remainder has the largest stake, then the smallest address |
| Fees.NothingPaid | src/mononium-lib/src/core/state.rs:266-282 | without fees or without active stake nothing happens |
| Fees.PaidAccounts | src/mononium-lib/src/core/state.rs:287-302 | only who is paid something gets an account |
| Fees.DistributionOrderIndependent | src/mononium-lib/src/core/state.rs:284-285 | the listing order of the active set changes neither the balances nor whether the block aborts |
| Fees.FrozenHolderPaid | src/mononium-lib/src/core/state.rs:274-295 | a frozen validator listed as active is paid its share like every other holder |
| Fees.SlashedHolderPaid | src/mononium-lib/src/core/state.rs:851-908 | a slash leaves its offender in the active set, and the next fees still reach it |
| Aborts.TxAbortsIff | src/mononium-lib/src/core/state.rs:317-569 | within the supply bound a transaction aborts the node if and only if the checks before its sum pass and the sum reaches 2^256, or an affordable transfer to oneself overflows on its credit |
| Aborts.PoorSenderAborts | src/mononium-lib/src/core/state.rs:325-333 | an account without money aborts the node by a transfer of 2^256 - 1 with a fee |
| Aborts.SumsFitPreventsAbort | src/mononium-lib/src/core/state.rs:317-569 | amounts that add up within 256 bits, which can be checked beforehand, rule that out |
| Aborts.TxsAbortIff | src/mononium-lib/src/core/state.rs:121-227 | a list of transactions aborts if and only if one of them overflows at its turn |
| Aborts.DistributionAbortsIff | src/mononium-lib/src/core/state.rs:287-289 | distribution aborts if and only if the fee total times some active validator's stake reaches 2^256 |
| Aborts.BlockAbortsIff | src/mononium-lib/src/core/state.rs:116-240 | a block aborts if and only if a transaction overflows at its turn, or all run and the fee product overflows |
| Aborts.FeeBudgetPreventsAbort | src/mononium-lib/src/core/state.rs:287-289 | for such transactions, offered fees times supply below 2^256 rule out the abort of the block |
| Aborts.FeeProductCanAbort | src/mononium-lib/src/core/state.rs:287-289 | a state within the maximum supply and a one-transaction block that aborts |
| Aborts.EventAbortsIff | src/mononium-lib/src/core/state.rs:116-908 | an event aborts if and only if its block does, or it slashes a stake of which ninety times reaches 2^256 |
| Aborts.RunAbortsIff | src/mononium-lib/src/core/state.rs:116-908 | a run stops short if and only if one of its events overflows at its turn |
| Aborts.RunCompletes | src/mononium-lib/src/core/state.rs:116-908 | with 90 times the supply and every block's offered fees times the supply below 2^256, and amounts that fit, every run completes |
| Sorting.SortStable | src/mononium-lib/src/core/state.rs:810-814 | sorting keeps elements that compare equal in their order |
| Sorting.TiesKeepOrder | src/mononium-lib/src/core/state.rs:810-814 | of two elements that compare equal the one earlier in the input stands earlier in the sorted list |
| Election.RankedList | src/mononium-lib/src/core/state.rs:788-819 | the ranking lists exactly the candidates that are stored, neither frozen nor unstaking, and have one MONEX staked, sorted, each once |
| Election.TopNOptimal | src/mononium-lib/src/core/state.rs:808-822 | as many seats as possible, all qualified, ordered by stake, then earlier registration, then place among the candidates; every qualified candidate left out comes after every seated one |
| Election.RankedAhead | src/mononium-lib/src/core/state.rs:808-819 | of two ranked entries the first has more stake, or the earlier registration at equal stake, or the earlier place at both equal |
| Election.EraZeroSeats | src/mononium-lib/src/core/state.rs:801-807 | in era 0 the seats go to the first candidates that are neither frozen nor unstaking, in list order |
| Election.TopNEffect | src/mononium-lib/src/core/state.rs:824-839 | the seated become Active; all other entries, accounts and the active set are unchanged |
| Election.ActiveMeansSeatedIff | src/mononium-lib/src/core/state.rs:774-776 | Active means seated after an election if and only if before it every Active validator stands among the first contenders, as many as there are seats |
| Election.EraBoundaryEffect | src/mononium-lib/src/consensus/engine.rs:232-248 | after a boundary the active set is within the cap, duplicate-free, Active and above the minimum; nobody still frozen is in it; no money moved |
| Election.EraBoundaryInOrder | src/mononium-lib/src/consensus/engine.rs:232-248 | the active set after a boundary lists its members by stake, then registration, then place among the candidates |
| Election.TieFreeIsIndependent | src/mononium-lib/src/core/state.rs:810-819 | without a tie at or before the last seat the result does not depend on candidate order |
| Election.TieIsDependent | src/mononium-lib/src/core/state.rs:810-819 | with such a tie another order of the same candidates elects a different list |
| Election.OrderIndependentIff | src/mononium-lib/src/core/state.rs:810-819 | the list of seats is a function of the candidate set if and only if no tie reaches a seat |
| Election.NoTieAcrossIsIndependent | src/mononium-lib/src/core/state.rs:810-819 | without a tie between the last seat and the first place without one the seated set does not depend on candidate order |
| Election.TieAcrossIsDependent | src/mononium-lib/src/core/state.rs:810-819 | with such a tie another order of the same candidates seats a different set |
| Election.SetIndependentIff | src/mononium-lib/src/core/state.rs:810-819 | the seated set is a function of the candidate set if and only if no such tie exists |
| Election.ElectTopNDeterministic | src/mononium-lib/src/consensus/election.rs:82-97 | the strategy gives one result for all orders of the same candidates |
| Election.ElectTopNOptimal | src/mononium-lib/src/consensus/election.rs:82-97 | it returns as many candidates as allowed, larger stakes first and smaller addresses first among equals, and everything left out comes after |
| Finality.CommitTracker.constructor | src/mononium-lib/src/consensus/finality.rs:34-45 | no votes, nothing final, total the saturated sum of the weights |
| Finality.CommitTracker.AddVote | src/mononium-lib/src/consensus/finality.rs:54-81 | state and answer are those of recording one vote |
| Finality.CommitTracker.CumulativeWeight | src/mononium-lib/src/consensus/finality.rs:85-94 | the saturating weight of the votes stored for a height |
| Finality.CommitTracker.LastFinalizedHeight | src/mononium-lib/src/consensus/finality.rs:104-106 | the greatest final height, or 0 |
| Finality.TotalWeight | src/mononium-lib/src/consensus/finality.rs:34-45 | the saturating total is the true sum cut off at the maximum, in any iteration order |
| Finality.CrossesIff | src/mononium-lib/src/consensus/finality.rs:70-79 | while three times the total fits, the checked comparison is the two-thirds comparison |
| Finality.RunKeeps | src/mononium-lib/src/consensus/finality.rs:54-81 | after any votes: one vote per validator, a height is final exactly with a recorded supermajority, and an open height has recorded every active voter |
| Finality.FinalIff | src/mononium-lib/src/consensus/finality.rs:54-94 | a height is final if and only if the distinct active voters in the sequence hold more than two thirds |
| Finality.AcceptedIff | src/mononium-lib/src/consensus/finality.rs:54-68 | a vote is accepted if and only if its height is open and its voter is active and has not voted for that height before in the sequence |
| Finality.FinalIffSomePasses | src/mononium-lib/src/consensus/finality.rs:54-94 | for every total stake below 2^256: a height is final if and only if after some vote the distinct active voters so far passed the checked comparison, three times their weight fitting and twice the total not fitting or being smaller |
| Finality.ExactIffTotalFits | src/mononium-lib/src/consensus/finality.rs:70-79 | for a total stake this holds for all distributions and sequences if and only if three times the total is below 2^256 |
| Finality.FinalityOrderIndependent | src/mononium-lib/src/consensus/finality.rs:54-81 | duplicates, outsiders and reordering change no outcome |
| Finality.FinalityMonotone | src/mononium-lib/src/consensus/finality.rs:54-60 | a final height stays final |
| Finality.QuorumIntersection | src/mononium-lib/src/consensus/finality.rs:70-79 | two supermajorities share more than a third of the stake |
| Finality.AccountableSafety | src/mononium-lib/src/consensus/finality.rs:54-94 | two trackers final at one height that counted votes for different blocks: more than a third of the stake signed both; votes not counted may name anything |
| Finality.FinalWithoutAgreement | src/mononium-lib/src/consensus/finality.rs:54-81 | replacing block hashes in votes changes no outcome, whatever the stake |
| Mempool.Mempool.constructor | src/mononium-lib/src/mempool/mod.rs:89-95 | an empty pool within its limits |
| Mempool.Mempool.Add | src/mononium-lib/src/mempool/mod.rs:110-130 | each answer exactly when its check is the first to fail, fee, size, duplicate and cap in that order, judged on the pool as a set; exactly an accepted transaction is added; counter and caps hold |
| Mempool.Mempool.Remove | src/mononium-lib/src/mempool/mod.rs:135-147 | exactly the transaction with that sender and nonce leaves, and the answer says whether there was one |
| Mempool.Mempool.TakeBest | src/mononium-lib/src/mempool/mod.rs:164-178 | the cap check in the selection loop never fires: the loop takes the first min(max, size) of the sorted list |
| Mempool.Mempool.Select | src/mononium-lib/src/mempool/mod.rs:155-186 | min(max, size) transactions; a chosen one precedes another, or anything left behind, only with a fee no lower, at equal fees an arrival no later, at both equal a nonce no greater; selected plus remaining is the old pool |
| Mempool.Mempool.EvictExpired | src/mononium-lib/src/mempool/mod.rs:191-209 | exactly the transactions younger than the limit stay, and the count of the others is returned |
| Mempool.PoolSize | src/mononium-lib/src/mempool/mod.rs:78-83 | the sum of the per-sender sizes is the number of pooled transactions |
| Mempool.SentBySize | src/mononium-lib/src/mempool/mod.rs:121-125 | a sender's entry counts exactly its pooled transactions |
| Mempool.PriorityMeaning | src/mononium-lib/src/mempool/ordering.rs:62-70 | the comparison answers by fee descending, then arrival ascending, then nonce ascending |
| Mempool.PrefixIsSelection | src/mononium-lib/src/mempool/mod.rs:160-178 | the front of the priority order is a best selection |
| Mempool.SelectionUnique | src/mononium-lib/src/mempool/ordering.rs:62-70 | without a tie that reaches a selected place the selection is unique |
| Mempool.SelectionUniqueIff | src/mononium-lib/src/mempool/ordering.rs:62-70 | the list of selected transactions is determined by the pool if and only if no tie in fee, arrival and nonce reaches a selected place |
| GovernanceObject.GovernanceEngine.SubmitProposal | src/mononium-lib/src/governance/engine.rs:79-175 | state and answer are those of the submission function, checks in the same order; the items in the tree follow, and no account changes |
| GovernanceObject.GovernanceEngine.Vote | src/mononium-lib/src/governance/engine.rs:186-232 | state and answer are those of the voting function, the window's end wrapping at 64 bits |
| GovernanceObject.GovernanceEngine.CancelProposal | src/mononium-lib/src/governance/engine.rs:241-280 | state and answer are those of the cancellation function |
| GovernanceObject.GovernanceEngine.SetProposalStatus | src/mononium-lib/src/governance/engine.rs:444-450 | exactly the status of a stored proposal changes |
| GovernanceObject.GovernanceEngine.ExecuteApproved | src/mononium-lib/src/governance/engine.rs:307-324 | the nested loops apply the approved proposals in identifier order |
| GovernanceObject.CarriesWrite | src/mononium-lib/src/governance/engine.rs:357-442 | writing one item keeps the stored items equal to the encoded governance state |
| Governance.SubmitEffect | src/mononium-lib/src/governance/engine.rs:79-175 | each answer exactly when its requirement is the first to fail; an accepted proposal is stored as given, Active, and both counters grow by one |
| Governance.VoteEffect | src/mononium-lib/src/governance/engine.rs:186-232 | accepted exactly for an active proposal, within its window, with positive stake; the ballot stored is the choice, stake and height given; no other vote and nothing else changes |
| Governance.CancelEffect | src/mononium-lib/src/governance/engine.rs:241-280 | accepted exactly for the proposer of an active proposal with an account; the proposal is marked and both counters drop by one |
| Governance.BallotsAfterRun | src/mononium-lib/src/governance/engine.rs:186-232 | after any run the ballot stored for a voter is that of its last accepted vote on the proposal |
| Governance.SubmitKeeps | src/mononium-lib/src/governance/engine.rs:79-175 | submission keeps limits, counters and bounds |
| Governance.CancelKeeps | src/mononium-lib/src/governance/engine.rs:241-280 | cancellation keeps them |
| Governance.RunKeepsLimits | src/mononium-lib/src/governance/engine.rs:79-324 | so does every run of submissions, votes, cancellations, closings and executions |
| Governance.ReachableLimits | src/mononium-lib/src/governance/constants.rs:17-94 | in every reachable state at most 5 active proposals per proposer, 50 in all, and every stored parameter within its bounds |
| Governance.CounterLedger | src/mononium-lib/src/governance/engine.rs:387-441 | a proposer's counter is its accepted submissions less its accepted cancellations |
| Governance.CounterExcess | src/mononium-lib/src/governance/engine.rs:79-175 | a counter is the number of the proposer's active proposals plus how many were displaced |
| Governance.CounterExactIff | src/mononium-lib/src/governance/engine.rs:79-175 | so it is that number if and only if no submission replaced, and no closing ended, an active proposal of the proposer |
| Governance.OverwriteKeepsSlot | src/mononium-lib/src/governance/engine.rs:156-172 | two submissions of one identifier leave the first proposer's counter at one without an active proposal |
| Governance.VotingWindow | src/mononium-lib/src/governance/engine.rs:204-208 | a vote of stake is accepted exactly in the seven eras from submission if and only if the window's end does not wrap |
| Governance.ExecuteMeaning | src/mononium-lib/src/governance/engine.rs:307-324 | a parameter ends with the last assignment of the approved proposal with the greatest identifier that sets it, or as it was |
| Governance.ExecuteSetwise | src/mononium-lib/src/governance/engine.rs:307-324 | execution depends on the set of identifiers, not on order or repetition |
| Governance.ExecuteIdempotent | src/mononium-lib/src/governance/engine.rs:307-324 | executing the same identifiers again changes nothing |
| TxRoot.ComputeTxRoot | src/mononium-lib/src/consensus/engine.rs:393-413 | the digest of the empty input, or the left-nested chain over the transaction hashes, each as often as it occurs, smaller first in byte order |
| TxRoot.DigestLeIff | src/mononium-lib/src/consensus/engine.rs:405-405 | the order of the sort: equal, or smaller at the first differing byte |
| TxRoot.RootNestsLeft | src/mononium-lib/src/consensus/engine.rs:397-412 | the list of transaction hashes in byte order is unique and the root is its left-nested chain |
| TxRoot.RootCanonical | src/mononium-lib/src/consensus/engine.rs:393-413 | any two orders of the same transactions have the same root |
| TxRoot.ChainBinding | src/mononium-lib/src/consensus/engine.rs:407-412 | a chain decodes uniquely, its length included, unless a link of one chain collides with a link of the other or its digest stands in the other as an element |
| TxRoot.RootBinding | src/mononium-lib/src/consensus/engine.rs:393-413 | equal roots mean equal multisets of transactions, unless two inputs hashed for the two roots collide or a transaction of one list has the bytes of an inner input of the other |
| TxRoot.SignedRootBinding | src/mononium-lib/src/consensus/engine.rs:393-413 | for encodings longer than 64 bytes, as all signed ones are, the second exception cannot happen |
| TxRoot.EmptyRootBinding | src/mononium-lib/src/consensus/engine.rs:394-396 | another block has the empty root only through a collision with the empty input or a transaction encoded as the empty input |
| TxRoot.ShortEncodingsAmbiguous | src/mononium-lib/src/consensus/engine.rs:397-412 | a 64-byte encoding shaped as a digest pair gives one transaction the root of two |
| RateLimiting.RateLimiter.Check | src/mononium-lib/src/network/topics.rs:91-101 | keeps the peer's window for 10^9 ns from its start and opens a new one otherwise, and says whether it has room |
| RateLimiting.RateLimiter.Increment | src/mononium-lib/src/network/topics.rs:108-118 | counts one message in the window of its own clock reading |
| RateLimiting.RateLimiter.Allow | src/mononium-lib/src/network/topics.rs:123-129 | a check and, when allowed, a count, possibly at different clock readings |
| RateLimiting.RateBound | src/mononium-lib/src/network/topics.rs:91-129 | over any run with a forward clock a counter stays within the limit and one window length admits at most twice the limit, or one less when check and count read the same time |
| RateLimiting.RefusedOnlyWhenFull | src/mononium-lib/src/network/topics.rs:91-129 | a message is refused only inside a window that already admitted the whole limit |
| RateLimiting.PeersIndependent | src/mononium-lib/src/network/topics.rs:91-129 | a peer's window and admissions are those of its own calls alone |
| RateLimiting.SharpBound | src/mononium-lib/src/network/topics.rs:91-129 | a bound holds for every run if and only if it is at least that |
| Supply.RewardGreatest | src/mononium-lib/src/consensus/supply.rs:106-128 | the reward is the greatest amount whose yearly sum exceeds neither rate's share, and zero at the cap; the nested roundings lose nothing more |
| Supply.YearWithinHeadroom | src/mononium-lib/src/consensus/supply.rs:106-128 | a whole year at one snapshot's reward stays within the cap |
| Supply.RewardAntitone | src/mononium-lib/src/consensus/supply.rs:106-128 | more supply never means more reward |
| Supply.EmissionBounded | src/mononium-lib/src/consensus/supply.rs:106-128 | paid block by block, the supply never shrinks and never passes the cap |
| Supply.ErasBounded | src/mononium-lib/src/consensus/supply.rs:106-128 | nor when one snapshot's reward is paid for up to a year at a time |
| Supply.ZeroRewardIff | src/mononium-lib/src/consensus/supply.rs:106-128 | at the default rates the reward is zero if and only if the headroom is below 126 144 000 |
| Supply.EmissionStops | src/mononium-lib/src/consensus/supply.rs:106-128 | the reward reaches zero within as many blocks as there is headroom |
| Supply.StandsStill | src/mononium-lib/src/consensus/supply.rs:106-128 | from then on the supply stays the same |
| Supply.ProductsFit | src/mononium-lib/src/consensus/supply.rs:116-120 | up to a cap of 2^224 no product overflows 256 bits |
| Proposer.SeatOfHeight | src/mononium-lib/src/consensus/proposer.rs:81-88 | k heights after the start it is the turn of seat k modulo the number of seats, and of the first seat before the start |
| Proposer.TurnsInRound | src/mononium-lib/src/consensus/proposer.rs:81-88 | within one round each seat comes up once, after its wait |
| Proposer.RoundRobinFair | src/mononium-lib/src/consensus/proposer.rs:81-88 | in any stretch of heights from the start on each validator has its share of turns, rounded down or up |

## Left out

- Falcon-512 signing and verification, BLAKE3 and the SCALE codecs: the hash is arbitrary, and
  the two ledger codecs of `StateKeys` are arbitrary functions, injective where a result needs it.
- Decoding accounts and entries on every read: the handlers read the decoded maps, which
  `StateKeys.ReadRefines` shows to be what the tree holds.
- Transaction validation before execution (signatures, sizes, fee policy): the state machine
  itself does not repeat it.
- Storage, genesis files, configuration, wallet, RPC, gossip, sync and the consensus loop's
  timing: input and output around the core.
- `Trie::prove`, `tally_proposals`, `has_any_votes`, `has_active_proposal_for_param`: stubs in the
  source, which return an empty or constant answer.
- The `u32` widths of a receipt's transaction counts: modelled as natural numbers.
- Setting a closed proposal back to Active, which only tests do: `RunKeepsLimits` excludes it.
- `finality_ratio`, fork choice, era arithmetic, the fee formula and peer scores: they would add
  only easy members.
- StateMachineObject.StateMachine.ApplyBlock: requires that no 256-bit overflow aborts the block, because an aborted block leaves no state to describe; Aborts.BlockAbortsIff says exactly when that is.
- Mempool.Mempool.Select: leaves the order of transactions of equal priority open, because the source takes them in hash-map order; Mempool.SelectionUniqueIff says exactly when that matters.
