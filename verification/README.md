# Opdex V1 liquidity pool core, modelled in Dafny

This project models the reserve-and-share engine of an Opdex V1 pool, `OpdexV1Pair`.
Such a pool trades the chain's native currency (CRS) against one SRC token. It also
models the ulong token-ledger base `OpdexV1SRC` that Opdex's own tokens build on.

The model is purely functional:

- A pool is an immutable `Pair.Pool` record. It holds the two reserves, the fee
  checkpoint `kLast`, the pool's own share ledger, and the pool's custodial balances.
- Every public entry point that can fail is a function from a pool to `Result<...>`.
  A failed assertion of the contract becomes an `Err` naming the failure. The two
  that cannot fail, `Pair.Sync` and `Pair.Approve`, return the new pool directly. Since the chain reverts
  a failed call, an `Err` means no state change.
- Anything the outside world does during a call becomes an input:
  - for `Swap`, the custodial balances measured after the outgoing transfers and the
    recipient's payment;
  - for `Borrow`, the outcome of the borrower's callback and the balances measured
    after it;
  - for `MintFee`, the fee beneficiary returned by the controller, where `None` means
    the lookup call failed.
- Assets that arrive between calls are `Pair.Deposit`.

One ledger module, `TokenLedger`, serves both token surfaces. It takes the largest
representable amount as a parameter:

- 2^256 − 1 for the pool's UInt256 shares;
- 2^64 − 1 for the SRC base class, whose `SafeMath` steps are the same checked
  additions and subtractions.

Its invariant is `TokenLedger.Valid`: the total supply equals the sum of all balances
and stays within the maximum. The pool invariant `Pair.Valid` adds that custody covers
the reserves and that the CRS custody fits a ulong, as a contract balance does. `PairProps.StepKeepsValid` proves that every successful call keeps the
pool invariant, and `PairProps.EmptyPoolValid` proves that a new pool satisfies it.

The documentation of `KLast` in `src/Interfaces/Pools/IOpdexLiquidityPool.cs:32`
describes it as the reserve product after the most recent Mint or Burn. The model
follows the code instead:

- `Burn` does not refresh `KLast`, so the next fee step charges again for growth
  this burn's fee step already paid for. `PairProps.BurnCheckpointScenario` shows it,
  and `Pair.BurnRefreshingCheckpoint` is the corrected burn.
- `Swap` does refresh `KLast`.
- Because `Swap` refreshes it, `MintFee` can never charge a fee on growth that comes
  from swaps. `PairProps.FeeStepIdleAfterMintOrSwap` and `PairProps.SwapResetsCheckpoint`
  state this.
- `Pair.SwapKeepingCheckpoint` is the swap the fee design evidently intends, and
  "## Findings" records both differences.

A first deposit of 1000 CRS and 1000 SRC is refused: its square root minus the 1000
locked shares leaves nothing to mint (`PairProps.FirstMintEqualDeposits`).

Integer widths:

- ulong wrap-around is written out (`Arith.ToU64`) for two steps: the `(ulong)` cast in
  `Burn`, and the unchecked `balanceCrs * 1000 - amountCrsIn * 3` in `Swap`.
- Every other unguarded subtraction is a checked subtraction that fails with
  `Underflow`. These are the reserve differences in `Mint` and `Skim`, and every
  UInt256 subtraction.

## Model

| member | source | states |
|---|---|---|
| Arith.CheckedAdd | src/OpdexV1Core/Contracts/OpdexV1SRC.cs:34-35 | an addition succeeds exactly when the sum fits the type's maximum, and otherwise aborts with Overflow |
| Arith.CheckedSub | src/OpdexV1Core/Contracts/OpdexV1SRC.cs:42-43 | a subtraction succeeds exactly when it does not go below zero; the result plus the subtrahend gives back the minuend |
| Arith.ToU64 | src/Pair.cs:194 | a ulong cast keeps the value modulo 2^64: the result is at most 2^64 − 1 and congruent to the input modulo 2^64, so it is the identity on values that already fit and never larger than the original |
| Arith.WrappedSub | src/Pair.cs:236 | an unchecked ulong difference of wrapped operands equals the true difference modulo 2^64 |
| Arith.Sqrt | src/Pair.cs:416-430 | Sqrt returns 1 for every value up to 3 (0 included); above 3 it returns the floor square root r, with r² ≤ v < (r+1)²; so it is never 0 |
| Arith.SqrtLoop | src/Pair.cs:420-429 | the Babylonian loop started above the root stops at the floor square root |
| Arith.SqrtOfSquare | src/Pair.cs:416-430 | Sqrt is exact on every positive perfect square |
| TokenLedger.BalanceWithinSupply | src/Pair.cs:60-64 | in a valid ledger no balance exceeds the total supply |
| TokenLedger.Mint | src/Pair.cs:379-386 | minting adds the amount to both the supply and the recipient's balance and to no other account; it fails exactly when either addition overflows |
| TokenLedger.Burn | src/Pair.cs:397-404 | burning removes the amount from both the holder's balance and the supply; it fails exactly when either would go negative |
| TokenLedger.Transfer | src/Pair.cs:406-414 | a transfer debits the sender and credits the receiver by the same amount, and touches nothing else; a self-transfer changes no balance; it fails exactly on a short balance or a receiver overflow |
| TokenLedger.Approve | src/Pair.cs:138-145 | approve overwrites exactly one allowance and leaves all balances and the supply alone |
| TokenLedger.SpendAllowance | src/Pair.cs:125-127 | a positive allowance is lowered by the amount and fails if it is smaller; a zero allowance is left alone and checks nothing |
| TokenLedger.TransferFrom | src/Pair.cs:123-130 | the allowance step followed by the transfer; it succeeds exactly when the allowance is zero or covers the amount, and the transfer succeeds; its balances are the transfer's, the supply is kept and no allowance but (from, spender) changes |
| TokenLedger.TransferFromChecked | src/Pair.cs:123-130 | the corrected transfer-from: it succeeds only when the allowance covers the amount, the allowance drops by exactly that amount, no other allowance changes and the supply is kept |
| TokenLedger.MintKeepsSupply | src/Pair.cs:379-386 | minting keeps the total supply equal to the sum of balances |
| TokenLedger.BurnKeepsSupply | src/Pair.cs:397-404 | burning keeps the total supply equal to the sum of balances |
| TokenLedger.TransferKeepsSupply | src/Pair.cs:406-414 | a transfer keeps the total supply equal to the sum of balances |
| TokenLedger.TransferFromKeepsSupply | src/Pair.cs:123-130 | transfer-from keeps the total supply equal to the sum of balances |
| TokenLedger.TransferFromCheckedKeepsSupply | src/Pair.cs:123-130 | the corrected transfer-from keeps the total supply equal to the sum of balances |
| TokenLedger.TransferFromCheckedDiffersOnlyAtZero | src/Pair.cs:125-127 | the corrected and as-written transfer-from agree whenever the allowance is positive; at a zero allowance the corrected one refuses every positive amount |
| TokenLedger.MintFailsOnlyOnSupply | src/Pair.cs:379-386 | in a valid ledger a mint fails exactly when the new supply would overflow |
| TokenLedger.TransferFailsOnlyOnBalance | src/Pair.cs:406-414 | in a valid ledger a transfer fails exactly when the sender's balance is short; the receiver cannot overflow |
| TokenLedger.MintThenBurn | src/Pair.cs:379-404 | burning what was just minted restores every balance and the supply |
| TokenLedger.TransferThenBack | src/Pair.cs:406-414 | sending the same amount back undoes a transfer |
| TokenLedger.ZeroAllowanceBypass | src/Pair.cs:123-130 | an account with no allowance moves another account's whole balance through the as-written transfer-from, while the corrected one refuses |
| SrcToken.MintExecute | src/OpdexV1Core/Contracts/OpdexV1SRC.cs:31-37 | minting on the ulong ledger: it fails exactly when the supply or the recipient's balance would pass 2^64 − 1; only the recipient's balance and the supply change, and allowances are kept |
| SrcToken.BurnExecute | src/OpdexV1Core/Contracts/OpdexV1SRC.cs:39-45 | burning on the ulong ledger: it fails exactly when the balance or the supply is short; only the holder's balance and the supply change, and allowances are kept |
| SrcToken.TransferExecute | src/OpdexV1Core/Contracts/OpdexV1SRC.cs:53-60 | a ulong transfer fails with Underflow on a short balance, moves the amount between two distinct accounts, and leaves a self-transfer's balances unchanged |
| SrcToken.Approve | src/OpdexV1Core/Contracts/OpdexV1SRC.cs:62-66 | approve sets exactly allowance[sender][spender] and leaves every other allowance and balance as it was |
| SrcToken.TransferTo | src/OpdexV1Core/Contracts/OpdexV1SRC.cs:68-72 | the sender's own transfer succeeds exactly when the balance covers it and the receiver stays within 2^64 − 1; a short balance is Underflow; otherwise only the sender and the receiver change, by the amount, and supply and allowances stay |
| SrcToken.TransferFrom | src/OpdexV1Core/Contracts/OpdexV1SRC.cs:74-84 | it succeeds exactly when the allowance is zero or covers the amount, the balance covers it and the receiver stays within 2^64 − 1; a positive allowance drops by the amount; the amount moves from the owner to the receiver; no other balance or allowance and not the supply change; a zero allowance makes the call exactly a TransferExecute |
| SrcToken.OperationsKeepSupply | src/OpdexV1Core/Contracts/OpdexV1SRC.cs:31-84 | every SRC ledger operation keeps the total supply equal to the sum of balances and within 2^64 − 1 |
| SrcToken.FailuresOnValidLedger | src/OpdexV1Core/Contracts/OpdexV1SRC.cs:31-72 | on a valid ulong ledger, a mint fails exactly on supply overflow, and a transfer or a sender's own transfer exactly on a short sender balance |
| Pair.Send | src/Pair.cs:224-225 | an outgoing transfer succeeds exactly when custody covers it, and lowers custody by exactly the amounts |
| Pair.Update | src/Pair.cs:339-346 | Update sets both reserves and nothing else |
| Pair.FeeBelowFifth | src/Pair.cs:359-361 | the fee formula mints less than a fifth of the supply whenever it mints anything |
| Pair.FeeFormula | src/Pair.cs:359-361 | S·(rootK − rootKLast)/(5·rootK + rootKLast) rounded down: the result times the denominator is at most the numerator and within one denominator of it |
| Pair.FeeShares | src/Pair.cs:350-363 | the fee is zero unless KLast is positive and sqrt(k) has grown past sqrt(KLast); when it has grown, the fee is the formula of the supply and the two roots; a positive fee is below a fifth of the supply |
| Pair.MintFee | src/Pair.cs:348-377 | no-op when KLast is 0 or the root product has not grown; it succeeds exactly when the fee is zero or the beneficiary is present, nonzero, and can be credited; a positive fee with a missing or zero beneficiary fails with InvalidFeeTo; on success the supply grows by exactly the fee, only the beneficiary is credited, allowances and everything outside the share ledger are unchanged |
| Pair.MulDiv | src/Pair.cs:167-168 | x·y/z rounded down: r·z ≤ x·y < r·z + z |
| Pair.Mint | src/Pair.cs:147-182 | a successful mint needs custody to cover the reserves and mints a positive amount; it sets both reserves to the custody and KLast to their product, and leaves share allowances unchanged |
| Pair.MintShares | src/Pair.cs:172-177 | it succeeds exactly when the liquidity is positive and the share mint does not overflow; zero liquidity is refused with InsufficientLiquidity; on success it reports the liquidity, the recipient gains exactly it, the reserves move to custody, and KLast becomes their product |
| Pair.Burn | src/Pair.cs:184-212 | burning with no supply aborts; a successful burn pays out two positive amounts, lowers custody by exactly them, syncs the reserves to custody, and keeps KLast; the pool's own shares leave the supply (which grows by the fee first), the pool keeps only a fee minted to itself, no account but the pool and the fee beneficiary changes, and allowances are unchanged |
| Pair.SwapInput | src/Pair.cs:229-232 | the inferred input is positive exactly when the balance exceeds the reserve left after the payout, and then it is the excess |
| Pair.AdjustedCrs | src/Pair.cs:236 | the ulong-wrapped fee-adjusted CRS balance never exceeds the true one, and equals it whenever balance·1000 fits a ulong |
| Pair.AdjustedSrc | src/Pair.cs:237 | the fee-adjusted SRC balance is balance·1000 less three thousandths of the input (scaled); it lies between 997 and 1000 times the balance and equals 1000 times it exactly when no SRC came in |
| Pair.AdjustedProductBound | src/Pair.cs:236-239 | a product with the wrapped CRS term is at most the product with the true term |
| Pair.ProductKeptTrue | src/Pair.cs:236-239 | a product test passed with the wrapped CRS adjustment also passes with the true one |
| Pair.BurnRefreshingCheckpoint | src/Pair.cs:184-212 | the corrected burn: it succeeds exactly when Burn does, agrees with Burn in everything but KLast, and sets KLast to the product of the reserves it leaves |
| Pair.SwapKeepingCheckpoint | src/Pair.cs:214-247 | the corrected swap: it succeeds exactly when Swap does, and changes reserves and custody as Swap does while leaving KLast at its value before the swap |
| Pair.Swap | src/Pair.cs:214-247 | a swap succeeds exactly when `Pair.SwapAccepted` holds (the guards of lines 220-239): exactly one side is paid out, below its reserve, not to the token, custody covers the payout, some input arrived, and the fee-adjusted product covers the old product ×10^6 (`Pair.ProductKept`, the test of lines 236-239); two outputs or none give InvalidOutputAmount; on success the true fee-adjusted product also covers it, reserves follow the measured balances, KLast becomes their product, and nothing else changes |
| Pair.Borrow | src/Pair.cs:249-264 | a borrow succeeds exactly when the borrower is not Address.Zero, the pool or the token, the loan fits custody, the callback succeeds and both balances are back; a successful borrow leaves the pool unchanged |
| Pair.Skim | src/Pair.cs:319-327 | skim succeeds exactly when custody covers the reserves, and leaves custody equal to the reserves with nothing else changed |
| Pair.Sync | src/Pair.cs:329-332 | sync sets the reserves to custody and changes nothing else: KLast, the shares, custody, the pool's and the token's addresses are kept |
| Pair.TransferTo | src/Pair.cs:118-121 | a share transfer succeeds exactly when the sender's balance covers it and the receiver's balance stays within 2^256 − 1; it moves the amount from the sender to the receiver, changes no other balance, allowance, reserve or supply, and is a no-op on balances when sent to oneself |
| Pair.TransferFrom | src/Pair.cs:123-130 | it succeeds exactly when the allowance is zero or covers the amount and the plain transfer succeeds; its balances are those of the plain transfer; a positive allowance below the amount aborts and a positive allowance drops by the amount; no other allowance and not the supply change |
| Pair.Approve | src/Pair.cs:133-145 | approve sets exactly one share allowance and changes nothing else in the pool |
| PairProps.MintFeeKeepsValid | src/Pair.cs:348-377 | the fee mint keeps the share supply equal to the sum of share balances |
| PairProps.MintSharesKeepsValid | src/Pair.cs:172-177 | minting liquidity and syncing the reserves keeps the pool invariant |
| PairProps.MintKeepsValid | src/Pair.cs:147-182 | Mint keeps the pool invariant |
| PairProps.BurnKeepsValid | src/Pair.cs:184-212 | Burn keeps the pool invariant |
| PairProps.SwapKeepsValid | src/Pair.cs:214-247 | Swap keeps the pool invariant |
| PairProps.SwapKeepingCheckpointKeepsValid | src/Pair.cs:214-247 | the corrected swap keeps the pool invariant |
| PairProps.BurnRefreshingCheckpointKeepsValid | src/Pair.cs:184-212 | the corrected burn keeps the pool invariant |
| PairProps.SkimKeepsValid | src/Pair.cs:319-327 | on a valid pool Skim always succeeds, keeps the invariant, and leaves nothing for Sync to change |
| PairProps.ShareTransfersKeepValid | src/Pair.cs:118-145 | share transfers, transfer-from and approve keep the pool invariant |
| PairProps.StepKeepsValid | src/Pair.cs:118-332 | every successful call of any entry point keeps the supply-equals-sum and custody-covers-reserves invariant |
| PairProps.EmptyPoolValid | src/Pair.cs:11-16 | a freshly deployed pool satisfies the invariant |
| PairProps.MintUnderflowOnlyBelowMinimum | src/Pair.cs:153-162 | on a valid pool the reserve differences of Mint cannot underflow; an Underflow is only a first deposit whose root is below 1000 |
| PairProps.NoFeeWithoutSupply | src/Pair.cs:359-361 | with no supply the fee is zero |
| PairProps.MintFirstDeposit | src/Pair.cs:160-164 | a first deposit mints floor(sqrt(dCrs·dSrc)) − 1000 to the depositor and locks 1000 at Address.Zero; the new supply is exactly the floor root |
| PairProps.MintProportional | src/Pair.cs:165-170 | a later deposit mints the largest amount no more than either deposit's share of the supply (floor of dCrs·S/rCrs and dSrc·S/rSrc, the smaller) |
| PairProps.MintLiquidity | src/Pair.cs:165-170 | with a positive supply, a successful Mint needs both reserves positive and mints the smaller of the two proportional quotients |
| PairProps.SmallerShare | src/Pair.cs:167-169 | the smaller of two floor quotients is below both exact ratios and within one unit of one of them |
| PairProps.MintSupply | src/Pair.cs:155-177 | Mint grows the supply by the fee, the 1000 lock of a first deposit, and the minted amount, and changes no account but the recipient, Address.Zero and the fee beneficiary |
| PairProps.FirstDepositFloor | src/Pair.cs:160-172 | a first deposit whose floor root is at most 1000 is refused |
| PairProps.MulDivWithin | src/Pair.cs:194-195 | a fraction x/z ≤ 1 of y is at most y |
| PairProps.BurnProportional | src/Pair.cs:192-201 | Burn pays, per asset, the floor of (pool's own shares)·custody/supply (a·S ≤ l·b < a·S + S), no more than custody; the (ulong) cast never truncates on a valid pool; exactly the redeemed shares leave the supply beyond the fee |
| PairProps.BurnLeavesFairRemainder | src/Pair.cs:192-207 | after a burn, custody is at least the unredeemed fraction of the custody before |
| PairProps.MintFirstSucceeds | src/Pair.cs:147-177 | on a valid pool with no supply, Mint succeeds exactly when the floor root of the deposit product exceeds 1000 and fits 2^256 − 1 |
| PairProps.FirstMintLocksMinimum | src/Pair.cs:160-164 | on a valid empty pool whose deposit root reaches 1000, the fee step is idle, 1000 shares can always be locked at Address.Zero, and Mint continues with the root less 1000 as its liquidity |
| PairProps.MintLaterSucceeds | src/Pair.cs:147-177 | on a valid pool with a supply, Mint succeeds exactly when both reserves are positive, the fee step succeeds, the smaller proportional amount is positive, and supply + fee + amount fits 2^256 − 1 |
| PairProps.BurnSucceeds | src/Pair.cs:184-207 | on a valid pool, Burn succeeds exactly when there is a supply, both floor payouts are positive and the fee step succeeds; the payouts are then exactly the floor quotients |
| PairProps.RemainderBound | src/Pair.cs:194-195 | paying out at most l/s of a balance leaves at least (s − l)/s of it |
| PairProps.SwapRaisesProduct | src/Pair.cs:234-243 | an accepted swap strictly grows reserveCrs·reserveSrc |
| PairProps.ProductGrowth | src/Pair.cs:236-239 | if the balances less a positive input fee still cover the scaled old product, the balances themselves exceed it |
| PairProps.FeeStepIdleAfterMintOrSwap | src/Pair.cs:177 | after a Mint or a Swap, KLast equals the reserve product, so the next fee step charges nothing |
| PairProps.FeeStepIdleAfterCheckpointBurn | src/Pair.cs:184-212 | after the corrected burn, whatever KLast was before it, the next fee step charges nothing |
| PairProps.FeeStepIdleAfterBurn | src/Pair.cs:199-207 | after a burn from a synced pool whose KLast equals its reserve product, the root product can only have shrunk, so the next fee step charges nothing |
| PairProps.SwapResetsCheckpoint | src/Pair.cs:241-243 | after a Swap as written the fee shares due at the next fee step are zero, whatever the swap did to sqrt(k) |
| PairProps.CheckpointAcrossSwap | src/Pair.cs:243 | with the checkpoint kept across a swap, a fresh checkpoint is never above the new root, and any growth of sqrt(k) the swap caused is charged by the fee formula at the next fee step |
| PairProps.SqrtMonotone | src/Pair.cs:416-430 | Sqrt is monotone |
| PairProps.FirstMintEqualDeposits | src/Pair.cs:160-177 | an equal first deposit of n of each asset mints n − 1000 and locks 1000 when n > 1000; at n = 1000 it fails with InsufficientLiquidity; below 1000 it underflows |
| PairProps.SwapScenario | src/Pair.cs:220-239 | at reserves (1000, 1000), taking 90 SRC accepts 100 CRS in and rejects 99; the whole reserve, the token as recipient, and two outputs are each refused |
| PairProps.CheckpointScenario | src/Pair.cs:214-243 | at reserves (1000, 1000) with 1000 shares and KLast 10^6, a swap of 1000 CRS in for 400 SRC out is accepted; as written the next fee step charges 0 shares, with the checkpoint kept it charges 14 |
| PairProps.BurnCheckpointScenario | src/Pair.cs:184-212 | at reserves and custody (2000, 2000) with 1000 shares, 10 held by the pool and KLast 10^6, a burn with beneficiary 77 succeeds, mints 90 fee shares and leaves reserves (1980, 1980), supply 1080 and KLast 10^6; as written the next fee step charges 97 more shares, after the corrected burn it charges 0 |

## Left out

- Events (`Log(...)`) are not modelled. They change no state.
- Reading balances through `GetSrcBalance` is modelled as the custody value. The failure
  of that call (`OPDEX: INVALID_BALANCE`) is not modelled, because that call's contract
  is not part of this model.
- `SafeTransfer` and `SafeTransferTo` (in `ContractBase`) are not part of this model.
  They are modelled as `Pair.Send`, which fails only when custody is short. A transfer
  whose recipient is the pool itself is treated as a plain decrease of custody.
- The borrower's callback runs arbitrary code. It is modelled only through its success
  flag and the balances measured after it. Re-entrancy into the pool during a callback
  is not modelled.
- In Borrow, `Call(to, amountCrs, ...)` sends the CRS with the call. Not having the CRS
  is folded into `CallbackFailed`.
- Pair.Mint: the products `amountCrs * amountSrc`, `amountCrs * totalSupply` and
  `ReserveCrs * ReserveSrc` are unbounded, so UInt256 overflow of engine products is not
  modelled. The share ledger's own additions are bounded at 2^256 − 1.
- Pair.Mint: the ulong difference `balanceCrs - reserveCrs` fails with Underflow instead
  of wrapping. `PairProps.MintUnderflowOnlyBelowMinimum` shows it cannot happen on a
  valid pool.
- Pair.Skim: the ulong difference `Balance - ReserveCrs` fails with Underflow instead of
  wrapping. `PairProps.SkimKeepsValid` shows it cannot happen on a valid pool.
- Pair.Swap: the product and its comparison are evaluated on unbounded integers. Only
  the ulong CRS adjustment wraps.
- The staking code, `TotalWeight`, the `Weight`/`WeightK` accessors and `StakeToken` are
  not modelled. The staking entry points are commented out, and nothing live reads the
  weights.
- Not modelled: `GetReserves`, the name, symbol and decimals constants, `Controller`,
  the constructor beyond `PairProps.EmptyPoolValid`, and the `IOpdexLiquidityPool`
  interface. They are serialization, getters or declarations with no behaviour.
- The three-argument `Approve` overload ignores its `currentAmount`. It is the same
  function as `Pair.Approve`.
- Arith.ToU64: the `(ulong)` conversion of a UInt256 is taken to keep the low 64 bits;
  that conversion belongs to the Stratis runtime, which is not part of this model. On a
  valid pool the cast in `Burn` never changes the value (`PairProps.BurnProportional`).
- A deposit that would push the CRS custody past 2^64 − 1 is refused by
  `PairProps.Step`, because a ulong contract balance cannot hold it.
- PairProps.FirstMintEqualDeposits: states equal deposits of at most 2^64 − 1 only.

## Findings

| source | as written | input that shows it | evidently intended | confidence | as-written member | corrected member |
|---|---|---|---|---|---|---|
| src/Pair.cs:123-130 | a zero allowance skips the allowance check, so the transfer goes ahead | account 1 holds 100 shares and has approved nobody; account 2 calls TransferFrom(1, 2, 100) and receives all 100 | an allowance gates every third-party transfer, so at zero the call aborts | high, not executed | TokenLedger.ZeroAllowanceBypass | TokenLedger.TransferFromChecked |
| src/OpdexV1Core/Contracts/OpdexV1SRC.cs:74-84 | the same zero-allowance skip on the ulong ledger | the same ledger and call on an SRC token | the same allowance gate | high, not executed | TokenLedger.ZeroAllowanceBypass | TokenLedger.TransferFromChecked |
| src/Pair.cs:243 | Swap overwrites KLast with the new reserve product, so the fee step never sees growth of sqrt(k) from swaps | reserves (1000, 1000), 1000 shares, KLast 10^6; swap 1000 CRS in for 400 SRC out; the next Mint or Burn mints 0 fee shares instead of 14 | Swap leaves KLast at its value before the swap, so that KLast stays the product after the most recent Mint or Burn, as its documentation says, and the protocol fee accrues over swaps | medium, not executed | PairProps.SwapResetsCheckpoint | Pair.SwapKeepingCheckpoint |
| src/Pair.cs:199-209 | Burn charges the fee on the growth of sqrt(k) since KLast but leaves KLast unchanged, so the next fee step charges for the same growth again | reserves and custody (2000, 2000), 1000 shares of which the pool holds 10, KLast 10^6, beneficiary 77; the burn mints 90 fee shares and leaves reserves (1980, 1980) and KLast 10^6; the next Mint or Burn mints 97 more fee shares instead of 0 | Burn sets KLast to the product of the reserves it leaves, as Mint does at line 177 and as the documentation of KLast says | medium, not executed | PairProps.BurnCheckpointScenario | Pair.BurnRefreshingCheckpoint |

The as-written behaviour is `TokenLedger.TransferFrom`, which the pool's and the SRC
token's `TransferFrom` wrap so that they match the code. `TokenLedger.TransferFromChecked`
is the corrected definition:

- `TokenLedger.TransferFromCheckedKeepsSupply` proves it keeps the supply invariant.
- `TokenLedger.TransferFromCheckedDiffersOnlyAtZero` proves it agrees with the as-written
  one at every positive allowance.

The swap checkpoint is modelled the same way. `Pair.Swap` follows the code and refreshes
`KLast`. `Pair.SwapKeepingCheckpoint` is the corrected definition:

- `PairProps.CheckpointAcrossSwap` proves that the growth of sqrt(k) a swap causes is then
  charged by the fee formula.
- `PairProps.SwapKeepingCheckpointKeepsValid` proves it keeps the pool invariant.
- `PairProps.CheckpointScenario` exhibits the 0-versus-14 difference on a concrete pool.

The burn checkpoint is modelled the same way. `Pair.Burn` follows the code and keeps
`KLast`. `Pair.BurnRefreshingCheckpoint` is the corrected definition:

- `PairProps.FeeStepIdleAfterCheckpointBurn` proves that after it the next fee step
  charges nothing, whatever the checkpoint was before the burn.
- `PairProps.BurnRefreshingCheckpointKeepsValid` proves it keeps the pool invariant.
- `PairProps.BurnCheckpointScenario` exhibits the 97-versus-0 difference on a concrete
  pool.
- The corrected swap and the corrected burn are meant together: with both, KLast is
  always the product after the most recent Mint or Burn.
