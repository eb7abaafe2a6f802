/** OpdexV1Pair: the reserve-and-share engine of a CRS/SRC liquidity pool.

    The pool is an immutable record. Its custodial balances (`balCrs`, the
    contract's CRS balance, and `balSrc`, its balance on the SRC token) are
    what the contract would read with `Balance` and `GetSrcBalance`; an
    outgoing transfer lowers them. What the outside world does during a
    call (a swap recipient paying back, a borrower's callback) is an input:
    the balances measured afterwards. The fee beneficiary returned by the
    controller is an input too, `None` when the lookup call fails. */
module Pair {
  import opened Base
  import opened Arith
  import opened TokenLedger

  const MINIMUM_LIQUIDITY: nat := 1000

  /** Custodial balances measured by the contract: CRS is a ulong. */
  datatype Custody = Custody(crs: U64, src: nat)

  datatype Pool = Pool(
    self: Address,        // the pool contract's own address
    token: Address,       // the SRC token traded against CRS
    reserveCrs: nat,      // ulong
    reserveSrc: nat,
    kLast: nat,
    shares: Ledger,       // the pool's own share token
    balCrs: nat,
    balSrc: nat)

  datatype Minted = Minted(pool: Pool, liquidity: nat)

  datatype Burned = Burned(pool: Pool, amountCrs: nat, amountSrc: nat)

  /** A freshly deployed pool: reserves, KLast and supply start at zero. */
  function EmptyPool(self: Address, token: Address): Pool {
    Pool(self, token, 0, 0, 0, Ledger(0, map[], map[]), 0, 0)
  }

  /** The reachable-state invariant: the share supply is the sum of all
      share balances, the pool holds at least its recorded reserves, and
      its CRS balance fits a ulong. */
  ghost predicate Valid(p: Pool) {
    && TokenLedger.Valid(p.shares, MAX_U256)
    && p.balCrs <= MAX_U64
    && p.reserveCrs <= p.balCrs
    && p.reserveSrc <= p.balSrc
  }

  /** Assets arriving in the pool's custody outside any pool call (the
      deposit a router makes before Mint or Swap, a donation). */
  function Deposit(p: Pool, crs: nat, src: nat): (q: Pool)
    ensures q.balCrs == p.balCrs + crs && q.balSrc == p.balSrc + src
    ensures q.(balCrs := p.balCrs, balSrc := p.balSrc) == p
  {
    p.(balCrs := p.balCrs + crs, balSrc := p.balSrc + src)
  }

  /** SafeTransfer of CRS and SafeTransferTo of SRC out of the pool. */
  function Send(p: Pool, crs: nat, src: nat): (r: Result<Pool>)
    ensures r.Ok? <==> crs <= p.balCrs && src <= p.balSrc
    ensures r.Err? ==> r.error == TransferFailed
    ensures r.Ok? ==> r.value.balCrs + crs == p.balCrs && r.value.balSrc + src == p.balSrc
    ensures r.Ok? ==> r.value.(balCrs := p.balCrs, balSrc := p.balSrc) == p
  {
    if crs <= p.balCrs && src <= p.balSrc then
      Ok(p.(balCrs := p.balCrs - crs, balSrc := p.balSrc - src))
    else
      Err(TransferFailed)
  }

  /** The KLast checkpoint value: the product of the current reserves. */
  function ReserveProduct(p: Pool): nat
  {
    p.reserveCrs * p.reserveSrc
  }

  /** Update: the single point where reserves change. */
  function Update(p: Pool, balanceCrs: nat, balanceSrc: nat): (q: Pool)
    ensures q.reserveCrs == balanceCrs && q.reserveSrc == balanceSrc
    ensures q.(reserveCrs := p.reserveCrs, reserveSrc := p.reserveSrc) == p
  {
    p.(reserveCrs := balanceCrs, reserveSrc := balanceSrc)
  }

  // ---------------------------------------------------------------------
  // Protocol fee

  /** x·y/z rounded down, the proportional amount used by Mint and Burn. */
  function MulDiv(x: nat, y: nat, z: nat): (r: nat)
    requires 0 < z
    ensures r * z <= x * y < r * z + z
  {
    var product := Mul(x, y);
    var r := product / z;
    FloorBracket(product, z, r);
    r
  }

  /** S·(rootK − rootKLast)/(5·rootK + rootKLast), rounded down. */
  function FeeFormula(totalSupply: nat, rootK: nat, rootKLast: nat): (r: nat)
    requires 0 < rootKLast < rootK
    ensures r * (rootK * 5 + rootKLast) <= totalSupply * (rootK - rootKLast)
    ensures totalSupply * (rootK - rootKLast) < r * (rootK * 5 + rootKLast) + (rootK * 5 + rootKLast)
  {
    MulDiv(totalSupply, rootK - rootKLast, rootK * 5 + rootKLast)
  }

  /** Since rootKLast is positive the fee ratio is below one fifth, so the
      fee never reaches a fifth of the supply it dilutes. */
  lemma FeeBelowFifth(s: nat, rootK: nat, rootKLast: nat)
    requires 0 < rootKLast < rootK
    ensures FeeFormula(s, rootK, rootKLast) > 0 ==> 5 * FeeFormula(s, rootK, rootKLast) < s
  {
    var fee := FeeFormula(s, rootK, rootKLast);
    if 0 < fee {
      FifthOfRatio(s, rootK, rootKLast, fee);
    }
  }

  /** fee·(5a + b) ≤ s·(a − b) with b positive forces 5·fee < s. */
  lemma FifthOfRatio(s: nat, a: nat, b: nat, fee: nat)
    requires 0 < b < a && 0 < fee
    requires fee * (a * 5 + b) <= s * (a - b)
    ensures 5 * fee < s
  {
    var d: nat := a * 5 + b;
    var sa: nat := s * a;
    var sb: nat := s * b;
    assert s * (a - b) == sa - sb;
    assert s * d == 5 * sa + sb;
    MulLeft(1, fee, d);
    if 5 * fee >= s {
      MulLeft(1, s, b);
      MulLeft(s, 5 * fee, d);
      assert false;
    }
  }

  /** The fee shares MintFee would mint for the given reserves: zero when
      KLast is zero or the root of the reserve product has not grown past
      the root of KLast, otherwise FeeFormula of the supply and the roots. */
  function FeeShares(p: Pool, reserveCrs: nat, reserveSrc: nat): (r: nat)
    ensures r > 0 ==> 0 < p.kLast && Sqrt(p.kLast) < Sqrt(reserveCrs * reserveSrc)
    ensures r > 0 ==> 5 * r < p.shares.totalSupply
    ensures 0 < p.kLast && Sqrt(p.kLast) < Sqrt(reserveCrs * reserveSrc) ==>
              r == FeeFormula(p.shares.totalSupply, Sqrt(reserveCrs * reserveSrc), Sqrt(p.kLast))
  {
    if p.kLast == 0 then 0
    else
      var rootK := Sqrt(reserveCrs * reserveSrc);
      var rootKLast := Sqrt(p.kLast);
      if rootK <= rootKLast then 0
      else
        FeeBelowFifth(p.shares.totalSupply, rootK, rootKLast);
        FeeFormula(p.shares.totalSupply, rootK, rootKLast)
  }

  /** MintFee: mint the protocol's share of the growth of sqrt(k) since
      KLast to the controller's fee beneficiary. */
  function MintFee(p: Pool, reserveCrs: nat, reserveSrc: nat, feeTo: Option<Address>): (r: Result<Pool>)
    ensures p.kLast == 0 ==> r == Ok(p)
    ensures Sqrt(reserveCrs * reserveSrc) <= Sqrt(p.kLast) ==> r == Ok(p)
    ensures FeeShares(p, reserveCrs, reserveSrc) > 0 && (feeTo.None? || feeTo.value == ZERO_ADDRESS) ==>
              r == Err(InvalidFeeTo)
    ensures r.Ok? <==> FeeShares(p, reserveCrs, reserveSrc) == 0 ||
                       (feeTo.Some? && feeTo.value != ZERO_ADDRESS &&
                        TokenLedger.Mint(p.shares, MAX_U256, feeTo.value, FeeShares(p, reserveCrs, reserveSrc)).Ok?)
    ensures r.Err? ==> r.error == InvalidFeeTo || r.error == Overflow
    ensures r.Ok? ==> r.value.(shares := p.shares) == p
    ensures r.Ok? ==> r.value.shares.totalSupply == p.shares.totalSupply + FeeShares(p, reserveCrs, reserveSrc)
    ensures r.Ok? ==> r.value.shares.allowances == p.shares.allowances
    ensures r.Ok? && r.value != p ==>
              && feeTo.Some? && feeTo.value != ZERO_ADDRESS
              && 0 < r.value.shares.totalSupply - p.shares.totalSupply
              && 5 * (r.value.shares.totalSupply - p.shares.totalSupply) < p.shares.totalSupply
              && BalanceOf(r.value.shares, feeTo.value) ==
                   BalanceOf(p.shares, feeTo.value) + (r.value.shares.totalSupply - p.shares.totalSupply)
              && (forall a :: a != feeTo.value ==> BalanceOf(r.value.shares, a) == BalanceOf(p.shares, a))
  {
    var liquidity := FeeShares(p, reserveCrs, reserveSrc);
    if liquidity == 0 then Ok(p)
    else if feeTo.None? || feeTo.value == ZERO_ADDRESS then Err(InvalidFeeTo)
    else
      var shares :- TokenLedger.Mint(p.shares, MAX_U256, feeTo.value, liquidity);
      Ok(p.(shares := shares))
  }

  // ---------------------------------------------------------------------
  // Mint

  /** Mint: deposits are the custody in excess of the reserves; the first
      deposit mints sqrt(dCrs·dSrc) − 1000 and locks 1000 at Address.Zero,
      later ones mint the smaller of the two proportional amounts of the
      supply read before the protocol fee. */
  function Mint(p: Pool, to: Address, feeTo: Option<Address>): (r: Result<Minted>)
    ensures r.Ok? ==> p.reserveCrs <= p.balCrs && p.reserveSrc <= p.balSrc
    ensures r.Ok? ==> r.value.liquidity > 0
    ensures r.Ok? ==> r.value.pool.shares.allowances == p.shares.allowances
    ensures r.Ok? ==>
              var q := r.value.pool;
              && q.reserveCrs == p.balCrs && q.reserveSrc == p.balSrc
              && q.kLast == p.balCrs * p.balSrc
              && q.balCrs == p.balCrs && q.balSrc == p.balSrc
              && q.self == p.self && q.token == p.token
  {
    var amountCrs :- CheckedSub(p.balCrs, p.reserveCrs);
    var amountSrc :- CheckedSub(p.balSrc, p.reserveSrc);
    var totalSupply := p.shares.totalSupply;
    var charged :- MintFee(p, p.reserveCrs, p.reserveSrc, feeTo);
    if totalSupply == 0 then
      var liquidity :- CheckedSub(Sqrt(Mul(amountCrs, amountSrc)), MINIMUM_LIQUIDITY);
      var locked :- TokenLedger.Mint(charged.shares, MAX_U256, ZERO_ADDRESS, MINIMUM_LIQUIDITY);
      MintShares(charged.(shares := locked), to, liquidity)
    else if p.reserveCrs == 0 || p.reserveSrc == 0 then
      Err(DivisionByZero)
    else
      var liquidity := Min(MulDiv(amountCrs, totalSupply, p.reserveCrs), MulDiv(amountSrc, totalSupply, p.reserveSrc));
      MintShares(charged, to, liquidity)
  }

  /** The tail of Mint: assert a positive amount, credit it to `to`, move
      the reserves to the custody and checkpoint their product in KLast. */
  function MintShares(p: Pool, to: Address, liquidity: nat): (r: Result<Minted>)
    ensures r.Ok? <==> liquidity > 0 && TokenLedger.Mint(p.shares, MAX_U256, to, liquidity).Ok?
    ensures r.Ok? ==> r.value.liquidity == liquidity
    ensures liquidity == 0 ==> r == Err(InsufficientLiquidity)
    ensures r.Ok? ==>
              var q := r.value.pool;
              && q.reserveCrs == p.balCrs && q.reserveSrc == p.balSrc
              && q.kLast == p.balCrs * p.balSrc
              && q.balCrs == p.balCrs && q.balSrc == p.balSrc
              && q.self == p.self && q.token == p.token
              && TokenLedger.Mint(p.shares, MAX_U256, to, liquidity) == Ok(q.shares)
  {
    if liquidity == 0 then Err(InsufficientLiquidity)
    else
      var shares :- TokenLedger.Mint(p.shares, MAX_U256, to, liquidity);
      var q := Update(p.(shares := shares), p.balCrs, p.balSrc);
      Ok(Minted(q.(kLast := ReserveProduct(q)), liquidity))
  }

  // ---------------------------------------------------------------------
  // Burn

  /** Burn: redeem the shares the pool holds for itself, paying out the
      same fraction of each custodial balance (rounded down). The CRS
      amount goes through a `(ulong)` cast. KLast is left untouched. */
  function Burn(p: Pool, to: Address, feeTo: Option<Address>): (r: Result<Burned>)
    ensures p.shares.totalSupply == 0 ==> r == Err(DivisionByZero)
    ensures r.Ok? ==> r.value.amountCrs > 0 && r.value.amountSrc > 0
    ensures r.Ok? ==>
              var q := r.value.pool;
              && q.balCrs + r.value.amountCrs == p.balCrs
              && q.balSrc + r.value.amountSrc == p.balSrc
              && q.reserveCrs == q.balCrs && q.reserveSrc == q.balSrc
              && q.kLast == p.kLast
              && q.self == p.self && q.token == p.token
    ensures r.Ok? ==>
              var q := r.value.pool;
              var fee := FeeShares(p, p.reserveCrs, p.reserveSrc);
              && q.shares.allowances == p.shares.allowances
              && q.shares.totalSupply + BalanceOf(p.shares, p.self) == p.shares.totalSupply + fee
              && BalanceOf(q.shares, p.self) == (if feeTo == Some(p.self) then fee else 0)
              && forall a :: a != p.self && feeTo != Some(a) ==> BalanceOf(q.shares, a) == BalanceOf(p.shares, a)
  {
    var liquidity := BalanceOf(p.shares, p.self);
    var totalSupply := p.shares.totalSupply;
    if totalSupply == 0 then Err(DivisionByZero)
    else
      var amountCrs := ToU64(MulDiv(liquidity, p.balCrs, totalSupply));
      var amountSrc := MulDiv(liquidity, p.balSrc, totalSupply);
      if amountCrs == 0 || amountSrc == 0 then Err(InsufficientLiquidityBurned)
      else
        var charged :- MintFee(p, p.reserveCrs, p.reserveSrc, feeTo);
        var shares :- TokenLedger.Burn(charged.shares, p.self, liquidity);
        var sent :- Send(charged.(shares := shares), amountCrs, amountSrc);
        Ok(Burned(Update(sent, sent.balCrs, sent.balSrc), amountCrs, amountSrc))
  }

  /** The burn the checkpoint rule evidently intends: Burn followed by the
      refresh of KLast to the product of the new reserves, as Mint does, so
      that growth charged by this burn's fee step is not charged again. */
  function BurnRefreshingCheckpoint(p: Pool, to: Address, feeTo: Option<Address>): (r: Result<Burned>)
    ensures r.Ok? <==> Burn(p, to, feeTo).Ok?
    ensures r.Ok? ==>
              var b := Burn(p, to, feeTo).value;
              r.value == b.(pool := b.pool.(kLast := r.value.pool.kLast))
    ensures r.Ok? ==> r.value.pool.kLast == r.value.pool.reserveCrs * r.value.pool.reserveSrc
  {
    var b :- Burn(p, to, feeTo);
    Ok(b.(pool := b.pool.(kLast := ReserveProduct(b.pool))))
  }

  // ---------------------------------------------------------------------
  // Swap

  /** The input a swap infers for one asset: whatever the balance exceeds
      reserve − out by, or nothing. */
  function SwapInput(balance: nat, difference: nat): (r: nat)
    ensures r <= balance
    ensures r > 0 <==> balance > difference
    ensures r > 0 ==> r + difference == balance
  {
    if balance > difference then balance - difference else 0
  }

  /** balanceCrs·1000 − amountCrsIn·3 evaluated in unchecked ulong
      arithmetic, as the source does. */
  function AdjustedCrs(balance: nat, amountIn: nat): (r: nat)
    requires amountIn <= balance
    ensures r <= balance * 1000 - amountIn * 3
    ensures balance * 1000 <= MAX_U64 ==> r == balance * 1000 - amountIn * 3
  {
    WrappedSub(balance * 1000, amountIn * 3);
    ToU64(ToU64(balance * 1000) - ToU64(amountIn * 3))
  }

  /** balanceSrc·1000 − amountSrcIn·3 in UInt256, never negative here: the
      balance scaled by 1000 with a 0.3% fee taken off the input, so it
      lies between 997 and 1000 times the balance and reaches the top
      exactly when nothing came in. */
  function AdjustedSrc(balance: nat, amountIn: nat): (r: nat)
    requires amountIn <= balance
    ensures r + amountIn * 3 == balance * 1000
    ensures 997 * balance <= r <= 1000 * balance
    ensures r == 1000 * balance <==> amountIn == 0
  {
    balance * 1000 - amountIn * 3
  }

  /** The constant-product test of Swap on the balances measured after the
      payout: the fee-adjusted balances must multiply to at least the old
      reserve product (both sides scaled by 1000²). */
  predicate ProductKept(p: Pool, amountCrsOut: nat, amountSrcOut: nat, after: Custody)
    requires amountCrsOut <= p.reserveCrs && amountSrcOut <= p.reserveSrc
  {
    var inCrs := SwapInput(after.crs, p.reserveCrs - amountCrsOut);
    var inSrc := SwapInput(after.src, p.reserveSrc - amountSrcOut);
    AdjustedCrs(after.crs, inCrs) * AdjustedSrc(after.src, inSrc) >= p.reserveCrs * p.reserveSrc * 1_000_000
  }

  /** Every check Swap makes before it writes the new reserves. */
  predicate SwapAccepted(p: Pool, amountCrsOut: nat, amountSrcOut: nat, to: Address, after: Custody)
  {
    && (amountCrsOut > 0) != (amountSrcOut > 0)
    && amountCrsOut < p.reserveCrs && amountSrcOut < p.reserveSrc
    && to != p.token
    && amountCrsOut <= p.balCrs && amountSrcOut <= p.balSrc
    && (after.crs + amountCrsOut > p.reserveCrs || after.src + amountSrcOut > p.reserveSrc)
    && ProductKept(p, amountCrsOut, amountSrcOut, after)
  }

  /** A product test passed with the fee-adjusted CRS balance also holds
      with the true one (the adjustment only lowers it). */
  lemma ProductKeptTrue(p: Pool, amountCrsOut: nat, amountSrcOut: nat, after: Custody)
    requires amountCrsOut <= p.reserveCrs && amountSrcOut <= p.reserveSrc
    requires ProductKept(p, amountCrsOut, amountSrcOut, after)
    ensures var inCrs := SwapInput(after.crs, p.reserveCrs - amountCrsOut);
            var inSrc := SwapInput(after.src, p.reserveSrc - amountSrcOut);
            (after.crs * 1000 - inCrs * 3) * (after.src * 1000 - inSrc * 3) >=
              p.reserveCrs * p.reserveSrc * 1_000_000
  {
    var inCrs := SwapInput(after.crs, p.reserveCrs - amountCrsOut);
    var inSrc := SwapInput(after.src, p.reserveSrc - amountSrcOut);
    AdjustedProductBound(after.crs * 1000 - inCrs * 3, AdjustedCrs(after.crs, inCrs), AdjustedSrc(after.src, inSrc));
  }

  /** Swap: pay out exactly one asset first, then infer what came in from
      the balances measured afterwards (`after`), and accept only if the
      fee-adjusted product does not fall below the old reserve product. */
  function Swap(p: Pool, amountCrsOut: nat, amountSrcOut: nat, to: Address, after: Custody): (r: Result<Pool>)
    ensures (amountCrsOut > 0) == (amountSrcOut > 0) ==> r == Err(InvalidOutputAmount)
    ensures r.Ok? <==> SwapAccepted(p, amountCrsOut, amountSrcOut, to, after)
    ensures r.Ok? ==>
              var inCrs := SwapInput(after.crs, p.reserveCrs - amountCrsOut);
              var inSrc := SwapInput(after.src, p.reserveSrc - amountSrcOut);
              (after.crs * 1000 - inCrs * 3) * (after.src * 1000 - inSrc * 3) >=
                p.reserveCrs * p.reserveSrc * 1_000_000
    ensures r.Ok? ==> r.value == p.(reserveCrs := after.crs, reserveSrc := after.src,
                                    balCrs := after.crs, balSrc := after.src,
                                    kLast := r.value.kLast)
    ensures r.Ok? ==> r.value.kLast == after.crs * after.src
  {
    if (amountCrsOut > 0) == (amountSrcOut > 0) then Err(InvalidOutputAmount)
    else if !(amountCrsOut < p.reserveCrs && amountSrcOut < p.reserveSrc) then Err(InsufficientLiquidity)
    else if to == p.token then Err(InvalidTo)
    else
      var sent :- Send(p, amountCrsOut, amountSrcOut);
      var measured := sent.(balCrs := after.crs, balSrc := after.src);
      var amountCrsIn := SwapInput(after.crs, p.reserveCrs - amountCrsOut);
      var amountSrcIn := SwapInput(after.src, p.reserveSrc - amountSrcOut);
      if amountCrsIn == 0 && amountSrcIn == 0 then Err(InsufficientInputAmount)
      else if !ProductKept(p, amountCrsOut, amountSrcOut, after) then Err(ConstantProduct)
      else
        ProductKeptTrue(p, amountCrsOut, amountSrcOut, after);
        var q := Update(measured, after.crs, after.src);
        assert q == p.(reserveCrs := after.crs, reserveSrc := after.src, balCrs := after.crs, balSrc := after.src);
        Ok(q.(kLast := ReserveProduct(q)))
  }

  /** The swap the checkpoint rule evidently intends: identical to Swap
      except that the KLast checkpoint is left at its value before the
      swap, so that the protocol fee accrues over the swaps in between. */
  function SwapKeepingCheckpoint(p: Pool, amountCrsOut: nat, amountSrcOut: nat, to: Address, after: Custody): (r: Result<Pool>)
    ensures r.Ok? <==> SwapAccepted(p, amountCrsOut, amountSrcOut, to, after)
    ensures r.Ok? ==> r.value == p.(reserveCrs := after.crs, reserveSrc := after.src,
                                    balCrs := after.crs, balSrc := after.src)
  {
    var q :- Swap(p, amountCrsOut, amountSrcOut, to, after);
    Ok(q.(kLast := p.kLast))
  }

  lemma AdjustedProductBound(trueCrs: nat, adjustedCrs: nat, adjustedSrc: nat)
    requires adjustedCrs <= trueCrs
    ensures adjustedCrs * adjustedSrc <= trueCrs * adjustedSrc
  {
    MulLeft(adjustedCrs, trueCrs, adjustedSrc);
  }

  // ---------------------------------------------------------------------
  // Borrow, Skim, Sync

  /** Borrow: lend SRC and CRS to `to` for the duration of its callback;
      the call succeeds only if both custodial balances are back to their
      values before the loan. `callbackSucceeded` is the outcome of the
      callback call, `after` the balances measured once it returned. */
  function Borrow(p: Pool, amountCrs: nat, amountSrc: nat, to: Address,
                  callbackSucceeded: bool, after: Custody): (r: Result<Pool>)
    ensures to == ZERO_ADDRESS || to == p.self || to == p.token ==> r == Err(InvalidBorrower)
    ensures !callbackSucceeded ==> r.Err?
    ensures after.crs != p.balCrs || after.src != p.balSrc ==> r.Err?
    ensures r.Ok? ==> r.value == p
    ensures r.Ok? <==> to !in {ZERO_ADDRESS, p.self, p.token} && amountSrc <= p.balSrc &&
                       amountCrs <= p.balCrs && callbackSucceeded &&
                       after.crs == p.balCrs && after.src == p.balSrc
  {
    if to == ZERO_ADDRESS || to == p.self || to == p.token then Err(InvalidBorrower)
    else
      var lent :- Send(p, 0, amountSrc);
      if !callbackSucceeded || amountCrs > lent.balCrs then Err(CallbackFailed)
      else if after.crs != p.balCrs || after.src != p.balSrc then Err(InsufficientDebtPaid)
      else Ok(lent.(balCrs := after.crs, balSrc := after.src))
  }

  /** Skim: send out whatever custody exceeds the reserves. */
  function Skim(p: Pool, to: Address): (r: Result<Pool>)
    ensures r.Ok? <==> p.reserveCrs <= p.balCrs && p.reserveSrc <= p.balSrc
    ensures r.Err? ==> r.error == Underflow
    ensures r.Ok? ==> r.value.balCrs == p.reserveCrs && r.value.balSrc == p.reserveSrc
    ensures r.Ok? ==> r.value.(balCrs := p.balCrs, balSrc := p.balSrc) == p
  {
    var excessSrc :- CheckedSub(p.balSrc, p.reserveSrc);
    var excessCrs :- CheckedSub(p.balCrs, p.reserveCrs);
    Send(p, excessCrs, excessSrc)
  }

  /** Sync: force the reserves to the custody. */
  function Sync(p: Pool): (q: Pool)
    ensures q.reserveCrs == q.balCrs && q.reserveSrc == q.balSrc
    ensures q.balCrs == p.balCrs && q.balSrc == p.balSrc
    ensures q.kLast == p.kLast && q.shares == p.shares
    ensures q.(reserveCrs := p.reserveCrs, reserveSrc := p.reserveSrc) == p
  {
    Update(p, p.balCrs, p.balSrc)
  }

  // ---------------------------------------------------------------------
  // The share token (IStandardToken256 surface)

  /** TransferTo: move the sender's own shares; reserves are not touched. */
  function TransferTo(p: Pool, sender: Address, to: Address, amount: nat): (r: Result<Pool>)
    ensures r.Ok? <==> amount <= BalanceOf(p.shares, sender) &&
                       (if sender == to then BalanceOf(p.shares, sender) <= MAX_U256
                        else BalanceOf(p.shares, to) + amount <= MAX_U256)
    ensures r.Ok? ==> r.value.(shares := p.shares) == p
    ensures r.Ok? ==> forall a :: a != sender && a != to ==> BalanceOf(r.value.shares, a) == BalanceOf(p.shares, a)
    ensures r.Ok? ==> r.value.shares.allowances == p.shares.allowances
    ensures r.Ok? ==> r.value.shares.totalSupply == p.shares.totalSupply
    ensures amount > BalanceOf(p.shares, sender) ==> r == Err(Underflow)
    ensures r.Ok? && sender != to ==>
              && BalanceOf(r.value.shares, sender) == BalanceOf(p.shares, sender) - amount
              && BalanceOf(r.value.shares, to) == BalanceOf(p.shares, to) + amount
    ensures r.Ok? && sender == to ==> BalanceOf(r.value.shares, sender) == BalanceOf(p.shares, sender)
  {
    var shares :- Transfer(p.shares, MAX_U256, sender, to, amount);
    Ok(p.(shares := shares))
  }

  /** TransferFrom as written: a zero allowance skips the allowance check. */
  function TransferFrom(p: Pool, sender: Address, from: Address, to: Address, amount: nat): (r: Result<Pool>)
    ensures r.Ok? ==> r.value.(shares := p.shares) == p
    ensures AllowanceOf(p.shares, from, sender) > 0 && AllowanceOf(p.shares, from, sender) < amount ==>
              r == Err(Underflow)
    ensures r.Ok? && AllowanceOf(p.shares, from, sender) > 0 ==>
              AllowanceOf(r.value.shares, from, sender) == AllowanceOf(p.shares, from, sender) - amount
    ensures r.Ok? <==> (AllowanceOf(p.shares, from, sender) == 0 || amount <= AllowanceOf(p.shares, from, sender)) &&
                       Transfer(p.shares, MAX_U256, from, to, amount).Ok?
    ensures r.Ok? ==> r.value.shares.balances == Transfer(p.shares, MAX_U256, from, to, amount).value.balances
    ensures r.Ok? ==> r.value.shares.totalSupply == p.shares.totalSupply
    ensures r.Ok? ==> forall o, s :: (o != from || s != sender) ==>
              AllowanceOf(r.value.shares, o, s) == AllowanceOf(p.shares, o, s)
  {
    var shares :- TokenLedger.TransferFrom(p.shares, MAX_U256, sender, from, to, amount);
    Ok(p.(shares := shares))
  }

  /** Approve (both overloads; the `currentAmount` argument of the
      three-argument form is ignored). Always succeeds. */
  function Approve(p: Pool, sender: Address, spender: Address, amount: nat): (q: Pool)
    ensures AllowanceOf(q.shares, sender, spender) == amount
    ensures forall o, s :: (o != sender || s != spender) ==>
              AllowanceOf(q.shares, o, s) == AllowanceOf(p.shares, o, s)
    ensures q.shares.balances == p.shares.balances && q.shares.totalSupply == p.shares.totalSupply
    ensures q.(shares := p.shares) == p
  {
    p.(shares := TokenLedger.Approve(p.shares, sender, spender, amount))
  }
}
