/** Properties of the pool engine: the reachable-state invariant is kept by
    every entry point, minting and burning are proportional, an accepted
    swap grows the reserve product, and worked scenarios. */
module PairProps {
  import opened Base
  import opened Arith
  import opened TokenLedger
  import opened Pair

  // ---------------------------------------------------------------------
  // The invariant survives every entry point

  lemma MintFeeKeepsValid(p: Pool, reserveCrs: nat, reserveSrc: nat, feeTo: Option<Address>)
    requires TokenLedger.Valid(p.shares, MAX_U256) && MintFee(p, reserveCrs, reserveSrc, feeTo).Ok?
    ensures TokenLedger.Valid(MintFee(p, reserveCrs, reserveSrc, feeTo).value.shares, MAX_U256)
  {
    var liquidity := FeeShares(p, reserveCrs, reserveSrc);
    if liquidity > 0 {
      MintKeepsSupply(p.shares, MAX_U256, feeTo.value, liquidity);
    }
  }

  lemma MintSharesKeepsValid(p: Pool, to: Address, liquidity: nat)
    requires TokenLedger.Valid(p.shares, MAX_U256) && p.balCrs <= MAX_U64 && MintShares(p, to, liquidity).Ok?
    ensures Pair.Valid(MintShares(p, to, liquidity).value.pool)
  {
    MintKeepsSupply(p.shares, MAX_U256, to, liquidity);
  }

  lemma MintKeepsValid(p: Pool, to: Address, feeTo: Option<Address>)
    requires Pair.Valid(p) && Pair.Mint(p, to, feeTo).Ok?
    ensures Pair.Valid(Pair.Mint(p, to, feeTo).value.pool)
  {
    var charged := MintFee(p, p.reserveCrs, p.reserveSrc, feeTo).value;
    MintFeeKeepsValid(p, p.reserveCrs, p.reserveSrc, feeTo);
    if p.shares.totalSupply == 0 {
      var liquidity := Sqrt((p.balCrs - p.reserveCrs) * (p.balSrc - p.reserveSrc)) - MINIMUM_LIQUIDITY;
      MintKeepsSupply(charged.shares, MAX_U256, ZERO_ADDRESS, MINIMUM_LIQUIDITY);
      var locked := TokenLedger.Mint(charged.shares, MAX_U256, ZERO_ADDRESS, MINIMUM_LIQUIDITY).value;
      MintSharesKeepsValid(charged.(shares := locked), to, liquidity);
    } else {
      var totalSupply := p.shares.totalSupply;
      var liquidity := Min(MulDiv(p.balCrs - p.reserveCrs, totalSupply, p.reserveCrs),
                           MulDiv(p.balSrc - p.reserveSrc, totalSupply, p.reserveSrc));
      MintSharesKeepsValid(charged, to, liquidity);
    }
  }

  lemma BurnKeepsValid(p: Pool, to: Address, feeTo: Option<Address>)
    requires Pair.Valid(p) && Pair.Burn(p, to, feeTo).Ok?
    ensures Pair.Valid(Pair.Burn(p, to, feeTo).value.pool)
  {
    var charged := MintFee(p, p.reserveCrs, p.reserveSrc, feeTo).value;
    MintFeeKeepsValid(p, p.reserveCrs, p.reserveSrc, feeTo);
    BurnKeepsSupply(charged.shares, MAX_U256, p.self, BalanceOf(p.shares, p.self));
  }

  lemma SwapKeepsValid(p: Pool, amountCrsOut: nat, amountSrcOut: nat, to: Address, after: Custody)
    requires Pair.Valid(p) && Swap(p, amountCrsOut, amountSrcOut, to, after).Ok?
    ensures Pair.Valid(Swap(p, amountCrsOut, amountSrcOut, to, after).value)
  {
  }

  lemma SwapKeepingCheckpointKeepsValid(p: Pool, amountCrsOut: nat, amountSrcOut: nat, to: Address, after: Custody)
    requires Pair.Valid(p) && SwapKeepingCheckpoint(p, amountCrsOut, amountSrcOut, to, after).Ok?
    ensures Pair.Valid(SwapKeepingCheckpoint(p, amountCrsOut, amountSrcOut, to, after).value)
  {
  }

  lemma BurnRefreshingCheckpointKeepsValid(p: Pool, to: Address, feeTo: Option<Address>)
    requires Pair.Valid(p) && BurnRefreshingCheckpoint(p, to, feeTo).Ok?
    ensures Pair.Valid(BurnRefreshingCheckpoint(p, to, feeTo).value.pool)
  {
    BurnKeepsValid(p, to, feeTo);
  }

  lemma SkimKeepsValid(p: Pool, to: Address)
    requires Pair.Valid(p)
    ensures Skim(p, to).Ok?
    ensures Pair.Valid(Skim(p, to).value)
    ensures Sync(Skim(p, to).value) == Skim(p, to).value
  {
  }

  lemma ShareTransfersKeepValid(p: Pool, sender: Address, from: Address, to: Address, amount: nat)
    requires Pair.Valid(p)
    ensures Pair.TransferTo(p, sender, to, amount).Ok? ==> Pair.Valid(Pair.TransferTo(p, sender, to, amount).value)
    ensures Pair.TransferFrom(p, sender, from, to, amount).Ok? ==>
              Pair.Valid(Pair.TransferFrom(p, sender, from, to, amount).value)
    ensures Pair.Valid(Pair.Approve(p, sender, to, amount))
  {
    if Pair.TransferTo(p, sender, to, amount).Ok? {
      TransferKeepsSupply(p.shares, MAX_U256, sender, to, amount);
    }
    if Pair.TransferFrom(p, sender, from, to, amount).Ok? {
      TransferFromKeepsSupply(p.shares, MAX_U256, sender, from, to, amount);
    }
  }

  /** Every call a pool can receive, with the outside world's part of it. */
  datatype Call =
    | DepositCall(crs: nat, src: nat)
    | MintCall(to: Address, feeTo: Option<Address>)
    | BurnCall(to: Address, feeTo: Option<Address>)
    | SwapCall(amountCrsOut: nat, amountSrcOut: nat, to: Address, after: Custody)
    | BorrowCall(amountCrs: nat, amountSrc: nat, to: Address, callbackSucceeded: bool, after: Custody)
    | SkimCall(to: Address)
    | SyncCall
    | TransferToCall(sender: Address, to: Address, amount: nat)
    | TransferFromCall(sender: Address, from: Address, to: Address, amount: nat)
    | ApproveCall(sender: Address, spender: Address, amount: nat)

  function Step(p: Pool, c: Call): Result<Pool> {
    match c
    case DepositCall(crs, src) =>
      // the CRS balance of a contract is a ulong: no transfer can push it past MAX_U64
      if p.balCrs + crs > MAX_U64 then Err(Overflow) else Ok(Deposit(p, crs, src))
    case MintCall(to, feeTo) => var m :- Pair.Mint(p, to, feeTo); Ok(m.pool)
    case BurnCall(to, feeTo) => var b :- Pair.Burn(p, to, feeTo); Ok(b.pool)
    case SwapCall(cOut, sOut, to, after) => Swap(p, cOut, sOut, to, after)
    case BorrowCall(c, s, to, ok, after) => Borrow(p, c, s, to, ok, after)
    case SkimCall(to) => Skim(p, to)
    case SyncCall => Ok(Sync(p))
    case TransferToCall(sender, to, amount) => Pair.TransferTo(p, sender, to, amount)
    case TransferFromCall(sender, from, to, amount) => Pair.TransferFrom(p, sender, from, to, amount)
    case ApproveCall(sender, spender, amount) => Ok(Pair.Approve(p, sender, spender, amount))
  }

  /** The pool invariant (share supply equals the sum of share balances,
      custody covers the reserves) holds in every reachable state: it holds
      for a new pool and every successful call keeps it. */
  lemma StepKeepsValid(p: Pool, c: Call)
    requires Pair.Valid(p) && Step(p, c).Ok?
    ensures Pair.Valid(Step(p, c).value)
  {
    match c
    case DepositCall(crs, src) =>
    case MintCall(to, feeTo) => MintKeepsValid(p, to, feeTo);
    case BurnCall(to, feeTo) => BurnKeepsValid(p, to, feeTo);
    case SwapCall(cOut, sOut, to, after) => SwapKeepsValid(p, cOut, sOut, to, after);
    case BorrowCall(_, _, _, _, _) =>
    case SkimCall(to) => SkimKeepsValid(p, to);
    case SyncCall =>
    case TransferToCall(sender, to, amount) => ShareTransfersKeepValid(p, sender, sender, to, amount);
    case TransferFromCall(sender, from, to, amount) => ShareTransfersKeepValid(p, sender, from, to, amount);
    case ApproveCall(sender, spender, amount) => ShareTransfersKeepValid(p, sender, sender, spender, amount);
  }

  lemma EmptyPoolValid(self: Address, token: Address)
    ensures Pair.Valid(EmptyPool(self, token))
  {
    assert Sum(map[]) == 0;
  }

  /** The unguarded deposit subtractions of Mint cannot fail on a valid
      pool: an Underflow from Mint can only be the first deposit's
      minimum-liquidity subtraction. */
  lemma MintUnderflowOnlyBelowMinimum(p: Pool, to: Address, feeTo: Option<Address>)
    requires Pair.Valid(p) && Pair.Mint(p, to, feeTo) == Err(Underflow)
    ensures p.shares.totalSupply == 0
    ensures Sqrt((p.balCrs - p.reserveCrs) * (p.balSrc - p.reserveSrc)) < MINIMUM_LIQUIDITY
  {
  }

  // ---------------------------------------------------------------------
  // Mint

  lemma NoFeeWithoutSupply(p: Pool, reserveCrs: nat, reserveSrc: nat)
    requires p.shares.totalSupply == 0
    ensures FeeShares(p, reserveCrs, reserveSrc) == 0
  {
    if p.kLast != 0 {
      var rootK := Sqrt(reserveCrs * reserveSrc);
      var rootKLast := Sqrt(p.kLast);
      if rootKLast < rootK {
        assert FeeFormula(0, rootK, rootKLast) == 0;
      }
    }
  }

  /** First deposit: the depositor gets floor(sqrt(dCrs·dSrc)) − 1000 and
      1000 more are locked at Address.Zero; the new supply is exactly the
      floor square root. */
  lemma MintFirstDeposit(p: Pool, to: Address, feeTo: Option<Address>)
    requires p.shares.totalSupply == 0 && Pair.Mint(p, to, feeTo).Ok?
    ensures var m := Pair.Mint(p, to, feeTo).value;
            var root := m.liquidity + MINIMUM_LIQUIDITY;
            var deposits := (p.balCrs - p.reserveCrs) * (p.balSrc - p.reserveSrc);
            && root * root <= deposits < (root + 1) * (root + 1)
            && m.pool.shares.totalSupply == root
            && (to != ZERO_ADDRESS ==>
                  && BalanceOf(m.pool.shares, to) == BalanceOf(p.shares, to) + m.liquidity
                  && BalanceOf(m.pool.shares, ZERO_ADDRESS) == BalanceOf(p.shares, ZERO_ADDRESS) + MINIMUM_LIQUIDITY)
  {
    NoFeeWithoutSupply(p, p.reserveCrs, p.reserveSrc);
  }

  /** Later deposits: the minted amount is the largest one that is no more
      than either deposit's proportional share of the supply read before
      the protocol fee. */
  lemma MintProportional(p: Pool, to: Address, feeTo: Option<Address>)
    requires p.shares.totalSupply > 0 && Pair.Mint(p, to, feeTo).Ok?
    ensures var l := Pair.Mint(p, to, feeTo).value.liquidity;
            var s := p.shares.totalSupply;
            var dCrs := p.balCrs - p.reserveCrs;
            var dSrc := p.balSrc - p.reserveSrc;
            && l * p.reserveCrs <= dCrs * s
            && l * p.reserveSrc <= dSrc * s
            && (dCrs * s < (l + 1) * p.reserveCrs || dSrc * s < (l + 1) * p.reserveSrc)
  {
    var s := p.shares.totalSupply;
    var dCrs := p.balCrs - p.reserveCrs;
    var dSrc := p.balSrc - p.reserveSrc;
    MintLiquidity(p, to, feeTo);
    SmallerShare(dCrs, dSrc, s, p.reserveCrs, p.reserveSrc);
  }

  /** With a positive supply, Mint credits the smaller of the two
      proportional shares. */
  lemma MintLiquidity(p: Pool, to: Address, feeTo: Option<Address>)
    requires p.shares.totalSupply > 0 && Pair.Mint(p, to, feeTo).Ok?
    ensures p.reserveCrs > 0 && p.reserveSrc > 0
    ensures Pair.Mint(p, to, feeTo).value.liquidity ==
              Min(MulDiv(p.balCrs - p.reserveCrs, p.shares.totalSupply, p.reserveCrs),
                  MulDiv(p.balSrc - p.reserveSrc, p.shares.totalSupply, p.reserveSrc))
  {
  }

  /** The smaller of two floor quotients is below both exact ratios and
      within one unit of one of them. */
  lemma SmallerShare(dCrs: nat, dSrc: nat, s: nat, rCrs: nat, rSrc: nat)
    requires 0 < rCrs && 0 < rSrc
    ensures var l := Min(MulDiv(dCrs, s, rCrs), MulDiv(dSrc, s, rSrc));
            && l * rCrs <= dCrs * s
            && l * rSrc <= dSrc * s
            && (dCrs * s < (l + 1) * rCrs || dSrc * s < (l + 1) * rSrc)
  {
    var a, b := MulDiv(dCrs, s, rCrs), MulDiv(dSrc, s, rSrc);
    var l := Min(a, b);
    MulLeft(l, a, rCrs);
    MulLeft(l, b, rSrc);
  }

  /** Mint grows the supply by the fee, the minimum-liquidity lock of a
      first deposit and the minted amount, and touches no account but the
      recipient, Address.Zero and the fee beneficiary. */
  lemma MintSupply(p: Pool, to: Address, feeTo: Option<Address>)
    requires Pair.Mint(p, to, feeTo).Ok?
    ensures var m := Pair.Mint(p, to, feeTo).value;
            var lock := if p.shares.totalSupply == 0 then MINIMUM_LIQUIDITY else 0;
            && m.pool.shares.totalSupply ==
                 p.shares.totalSupply + FeeShares(p, p.reserveCrs, p.reserveSrc) + lock + m.liquidity
            && BalanceOf(m.pool.shares, to) >= BalanceOf(p.shares, to) + m.liquidity
            && forall a :: a != to && a != ZERO_ADDRESS && (feeTo.None? || a != feeTo.value) ==>
                 BalanceOf(m.pool.shares, a) == BalanceOf(p.shares, a)
  {
    var charged := MintFee(p, p.reserveCrs, p.reserveSrc, feeTo).value;
    assert charged.shares.totalSupply == p.shares.totalSupply + FeeShares(p, p.reserveCrs, p.reserveSrc);
  }

  /** First-deposit floor: a first deposit whose root product does not
      exceed MINIMUM_LIQUIDITY is refused. */
  lemma FirstDepositFloor(p: Pool, to: Address, feeTo: Option<Address>)
    requires p.shares.totalSupply == 0 && p.reserveCrs <= p.balCrs && p.reserveSrc <= p.balSrc
    requires Sqrt((p.balCrs - p.reserveCrs) * (p.balSrc - p.reserveSrc)) <= MINIMUM_LIQUIDITY
    ensures Pair.Mint(p, to, feeTo).Err?
  {
    NoFeeWithoutSupply(p, p.reserveCrs, p.reserveSrc);
  }

  // ---------------------------------------------------------------------
  // Burn

  lemma MulDivWithin(x: nat, y: nat, z: nat)
    requires 0 < z && x <= z
    ensures MulDiv(x, y, z) <= y
  {
    var r := MulDiv(x, y, z);
    MulLeft(x, z, y);
    if r > y {
      MulStrict(y, r, z);
      assert false;
    }
  }

  /** Burn pays out, per asset, the pool's own share balance over the
      supply of the custodial balance, rounded down; with a valid pool and
      its CRS balance a ulong, the `(ulong)` cast never truncates. Exactly the
      redeemed shares disappear (beyond any fee minted first). */
  lemma BurnProportional(p: Pool, to: Address, feeTo: Option<Address>)
    requires Pair.Valid(p) && Pair.Burn(p, to, feeTo).Ok?
    ensures var b := Pair.Burn(p, to, feeTo).value;
            var l := BalanceOf(p.shares, p.self);
            var s := p.shares.totalSupply;
            && b.amountCrs * s <= l * p.balCrs < b.amountCrs * s + s
            && b.amountSrc * s <= l * p.balSrc < b.amountSrc * s + s
            && b.amountCrs <= p.balCrs && b.amountSrc <= p.balSrc
            && b.pool.shares.totalSupply + l == s + FeeShares(p, p.reserveCrs, p.reserveSrc)
  {
    BurnSucceeds(p, to, feeTo);
    var b := Pair.Burn(p, to, feeTo).value;
    var l := BalanceOf(p.shares, p.self);
    var s := p.shares.totalSupply;
    BalanceWithinSupply(p.shares, MAX_U256, p.self);
    MulDivWithin(l, p.balCrs, s);
    MulDivWithin(l, p.balSrc, s);
    assert b.amountCrs == MulDiv(l, p.balCrs, s) && b.amountSrc == MulDiv(l, p.balSrc, s);
    var charged := MintFee(p, p.reserveCrs, p.reserveSrc, feeTo).value;
    assert charged.shares.totalSupply == s + FeeShares(p, p.reserveCrs, p.reserveSrc);
  }

  /** Those who stay are not shortchanged: what remains in custody is at
      least the unredeemed fraction of what was there. */
  lemma BurnLeavesFairRemainder(p: Pool, to: Address, feeTo: Option<Address>)
    requires Pair.Valid(p) && Pair.Burn(p, to, feeTo).Ok?
    ensures var q := Pair.Burn(p, to, feeTo).value.pool;
            var l := BalanceOf(p.shares, p.self);
            var s := p.shares.totalSupply;
            && q.balCrs * s >= p.balCrs * (s - l)
            && q.balSrc * s >= p.balSrc * (s - l)
  {
    BurnProportional(p, to, feeTo);
    var b := Pair.Burn(p, to, feeTo).value;
    var l := BalanceOf(p.shares, p.self);
    BalanceWithinSupply(p.shares, MAX_U256, p.self);
    RemainderBound(p.balCrs, b.amountCrs, b.pool.balCrs, l, p.shares.totalSupply);
    RemainderBound(p.balSrc, b.amountSrc, b.pool.balSrc, l, p.shares.totalSupply);
  }

  lemma RemainderBound(balance: nat, amount: nat, rest: nat, l: nat, s: nat)
    requires rest + amount == balance && amount * s <= l * balance && l <= s
    ensures rest * s >= balance * (s - l)
  {
    assert rest * s == balance * s - amount * s;
    assert balance * (s - l) == balance * s - l * balance;
  }

  // ---------------------------------------------------------------------
  // Swap

  /** An accepted swap strictly grows the reserve product: the 0.3% fee
      kept on a positive input makes the fee-adjusted check strictly
      stronger than reserveCrs·reserveSrc not decreasing. */
  lemma SwapRaisesProduct(p: Pool, amountCrsOut: nat, amountSrcOut: nat, to: Address, after: Custody)
    requires Swap(p, amountCrsOut, amountSrcOut, to, after).Ok?
    ensures var q := Swap(p, amountCrsOut, amountSrcOut, to, after).value;
            q.reserveCrs * q.reserveSrc > p.reserveCrs * p.reserveSrc
  {
    var inCrs := SwapInput(after.crs, p.reserveCrs - amountCrsOut);
    var inSrc := SwapInput(after.src, p.reserveSrc - amountSrcOut);
    ProductGrowth(after.crs, after.src, inCrs * 3, inSrc * 3, p.reserveCrs, p.reserveSrc);
  }

  /** If the balances less a positive fee on some input still cover the
      old product (scaled by 1000^2), the balances themselves exceed it. */
  lemma ProductGrowth(x: nat, y: nat, feeX: nat, feeY: nat, rx: nat, ry: nat)
    requires feeX <= x * 1000 && feeY <= y * 1000 && (feeX > 0 || feeY > 0)
    requires 0 < rx && 0 < ry
    requires (x * 1000 - feeX) * (y * 1000 - feeY) >= rx * ry * 1_000_000
    ensures x * y > rx * ry
  {
    var a: nat, b: nat := x * 1000 - feeX, y * 1000 - feeY;
    var k := rx * ry;
    MulLeft(1, rx, ry);
    if feeX > 0 {
      MulStrict(a, x * 1000, b);
      MulLeft(b, y * 1000, x * 1000);
    } else {
      MulStrict(b, y * 1000, a);
      MulLeft(a, x * 1000, y * 1000);
    }
    assert (x * 1000) * (y * 1000) == (x * y) * 1_000_000;
  }

  // ---------------------------------------------------------------------
  // The protocol-fee checkpoint

  /** Mint and Swap both leave KLast equal to the reserve product, so the
      fee step of the next Mint or Burn charges nothing unless the reserves
      moved in between (by Sync or Burn). In particular no fee is ever
      charged on growth earned by swaps. */
  lemma FeeStepIdleAfterMintOrSwap(p: Pool, to: Address, feeTo: Option<Address>,
                                   amountCrsOut: nat, amountSrcOut: nat, after: Custody,
                                   nextFeeTo: Option<Address>)
    ensures Pair.Mint(p, to, feeTo).Ok? ==>
              var q := Pair.Mint(p, to, feeTo).value.pool;
              MintFee(q, q.reserveCrs, q.reserveSrc, nextFeeTo) == Ok(q)
    ensures Swap(p, amountCrsOut, amountSrcOut, to, after).Ok? ==>
              var q := Swap(p, amountCrsOut, amountSrcOut, to, after).value;
              MintFee(q, q.reserveCrs, q.reserveSrc, nextFeeTo) == Ok(q)
  {
  }

  /** Burn leaves the checkpoint at the product before the burn; the fee
      step then stays idle until the root of the product regrows past it. */
  lemma FeeStepIdleAfterBurn(p: Pool, to: Address, feeTo: Option<Address>, nextFeeTo: Option<Address>)
    requires Pair.Burn(p, to, feeTo).Ok? && p.kLast == p.reserveCrs * p.reserveSrc
    requires Pair.Valid(p) && p.reserveCrs == p.balCrs && p.reserveSrc == p.balSrc
    ensures var q := Pair.Burn(p, to, feeTo).value.pool;
            MintFee(q, q.reserveCrs, q.reserveSrc, nextFeeTo) == Ok(q)
  {
    var q := Pair.Burn(p, to, feeTo).value.pool;
    assert q.reserveCrs <= p.reserveCrs && q.reserveSrc <= p.reserveSrc && q.kLast == p.kLast;
    RootOfSmallerProduct(q.reserveCrs, q.reserveSrc, p.reserveCrs, p.reserveSrc);
  }

  /** Shrinking both factors cannot raise the root of their product. */
  lemma RootOfSmallerProduct(a: nat, b: nat, c: nat, d: nat)
    requires a <= c && b <= d
    ensures Sqrt(a * b) <= Sqrt(c * d)
  {
    MulLeft(a, c, b);
    MulLeft(b, d, c);
    SqrtMonotone(a * b, c * d);
  }

  /** With the checkpoint refreshed by the burn, the fee step that opens
      the next Mint or Burn charges nothing until the reserves grow again,
      whatever checkpoint the pool held before the burn. */
  lemma FeeStepIdleAfterCheckpointBurn(p: Pool, to: Address, feeTo: Option<Address>, nextFeeTo: Option<Address>)
    requires BurnRefreshingCheckpoint(p, to, feeTo).Ok?
    ensures var q := BurnRefreshingCheckpoint(p, to, feeTo).value.pool;
            MintFee(q, q.reserveCrs, q.reserveSrc, nextFeeTo) == Ok(q)
  {
  }

  lemma SqrtMonotone(a: nat, b: nat)
    requires a <= b
    ensures Sqrt(a) <= Sqrt(b)
  {
    var ra, rb := Sqrt(a), Sqrt(b);
    if 3 < a && rb < ra {
      MulMono(rb + 1, ra);
    }
  }

  // ---------------------------------------------------------------------
  // Exactly when the pool entry points succeed

  /** The first Mint into a valid pool succeeds exactly when the root of
      the deposit product exceeds the 1000 locked shares and fits a
      UInt256: no other check can fail. */
  lemma MintFirstSucceeds(p: Pool, to: Address, feeTo: Option<Address>)
    requires Pair.Valid(p) && p.shares.totalSupply == 0
    ensures Pair.Mint(p, to, feeTo).Ok? <==>
              var root := Sqrt(Mul(p.balCrs - p.reserveCrs, p.balSrc - p.reserveSrc));
              MINIMUM_LIQUIDITY < root <= MAX_U256
  {
    NoFeeWithoutSupply(p, p.reserveCrs, p.reserveSrc);
    assert MintFee(p, p.reserveCrs, p.reserveSrc, feeTo) == Ok(p);
    var root := Sqrt(Mul(p.balCrs - p.reserveCrs, p.balSrc - p.reserveSrc));
    if MINIMUM_LIQUIDITY <= root {
      FirstMintLocksMinimum(p, to, feeTo);
      var locked := TokenLedger.Mint(p.shares, MAX_U256, ZERO_ADDRESS, MINIMUM_LIQUIDITY).value;
      MintKeepsSupply(p.shares, MAX_U256, ZERO_ADDRESS, MINIMUM_LIQUIDITY);
      MintFailsOnlyOnSupply(locked, MAX_U256, to, root - MINIMUM_LIQUIDITY);
    } else {
      assert Pair.Mint(p, to, feeTo) == Err(Underflow);
    }
  }

  /** A first Mint whose root reaches the minimum locks 1000 shares at
      Address.Zero and continues with the remainder. */
  lemma FirstMintLocksMinimum(p: Pool, to: Address, feeTo: Option<Address>)
    requires Pair.Valid(p) && p.shares.totalSupply == 0
    requires MINIMUM_LIQUIDITY <= Sqrt(Mul(p.balCrs - p.reserveCrs, p.balSrc - p.reserveSrc))
    ensures TokenLedger.Mint(p.shares, MAX_U256, ZERO_ADDRESS, MINIMUM_LIQUIDITY).Ok?
    ensures Pair.Mint(p, to, feeTo) ==
              MintShares(p.(shares := TokenLedger.Mint(p.shares, MAX_U256, ZERO_ADDRESS, MINIMUM_LIQUIDITY).value),
                         to, Sqrt(Mul(p.balCrs - p.reserveCrs, p.balSrc - p.reserveSrc)) - MINIMUM_LIQUIDITY)
  {
    NoFeeWithoutSupply(p, p.reserveCrs, p.reserveSrc);
    assert MintFee(p, p.reserveCrs, p.reserveSrc, feeTo) == Ok(p);
    MintFailsOnlyOnSupply(p.shares, MAX_U256, ZERO_ADDRESS, MINIMUM_LIQUIDITY);
  }

  /** A later Mint into a valid pool succeeds exactly when both reserves are
      positive, the protocol fee can be minted, the smaller proportional
      amount is positive and the supply stays within UInt256. */
  lemma MintLaterSucceeds(p: Pool, to: Address, feeTo: Option<Address>)
    requires Pair.Valid(p) && p.shares.totalSupply > 0
    ensures Pair.Mint(p, to, feeTo).Ok? <==>
              && 0 < p.reserveCrs && 0 < p.reserveSrc
              && MintFee(p, p.reserveCrs, p.reserveSrc, feeTo).Ok?
              && var liquidity := Min(MulDiv(p.balCrs - p.reserveCrs, p.shares.totalSupply, p.reserveCrs),
                                      MulDiv(p.balSrc - p.reserveSrc, p.shares.totalSupply, p.reserveSrc));
                 && 0 < liquidity
                 && p.shares.totalSupply + FeeShares(p, p.reserveCrs, p.reserveSrc) + liquidity <= MAX_U256
  {
    var charged := MintFee(p, p.reserveCrs, p.reserveSrc, feeTo);
    if charged.Ok? && 0 < p.reserveCrs && 0 < p.reserveSrc {
      MintFeeKeepsValid(p, p.reserveCrs, p.reserveSrc, feeTo);
      var liquidity := Min(MulDiv(p.balCrs - p.reserveCrs, p.shares.totalSupply, p.reserveCrs),
                           MulDiv(p.balSrc - p.reserveSrc, p.shares.totalSupply, p.reserveSrc));
      MintFailsOnlyOnSupply(charged.value.shares, MAX_U256, to, liquidity);
    }
  }

  /** Burn on a valid pool succeeds exactly when there is a supply, both
      rounded-down payouts are positive and the protocol fee can be minted;
      the payouts are then the floor quotients themselves. */
  lemma BurnSucceeds(p: Pool, to: Address, feeTo: Option<Address>)
    requires Pair.Valid(p)
    ensures Pair.Burn(p, to, feeTo).Ok? <==>
              && 0 < p.shares.totalSupply
              && 0 < MulDiv(BalanceOf(p.shares, p.self), p.balCrs, p.shares.totalSupply)
              && 0 < MulDiv(BalanceOf(p.shares, p.self), p.balSrc, p.shares.totalSupply)
              && MintFee(p, p.reserveCrs, p.reserveSrc, feeTo).Ok?
    ensures Pair.Burn(p, to, feeTo).Ok? ==>
              && Pair.Burn(p, to, feeTo).value.amountCrs ==
                   MulDiv(BalanceOf(p.shares, p.self), p.balCrs, p.shares.totalSupply)
              && Pair.Burn(p, to, feeTo).value.amountSrc ==
                   MulDiv(BalanceOf(p.shares, p.self), p.balSrc, p.shares.totalSupply)
  {
    var l := BalanceOf(p.shares, p.self);
    var s := p.shares.totalSupply;
    if 0 < s {
      BalanceWithinSupply(p.shares, MAX_U256, p.self);
      MulDivWithin(l, p.balCrs, s);
      MulDivWithin(l, p.balSrc, s);
      var charged := MintFee(p, p.reserveCrs, p.reserveSrc, feeTo);
      if charged.Ok? {
        assert BalanceOf(charged.value.shares, p.self) >= l;
      }
    }
  }

  // ---------------------------------------------------------------------
  // The KLast checkpoint across swaps

  /** With Swap as written the checkpoint follows every swap, so the fee
      step that opens the next Mint or Burn never charges for the growth of
      sqrt(k) that the swaps in between caused. */
  lemma SwapResetsCheckpoint(p: Pool, amountCrsOut: nat, amountSrcOut: nat, to: Address, after: Custody)
    requires Swap(p, amountCrsOut, amountSrcOut, to, after).Ok?
    ensures var q := Swap(p, amountCrsOut, amountSrcOut, to, after).value;
            FeeShares(q, q.reserveCrs, q.reserveSrc) == 0
  {
  }

  /** With the checkpoint kept across a swap, the swap cannot lower sqrt(k)
      below a fresh checkpoint, and the growth it causes is charged by the
      formula of MintFee at the next fee step. */
  lemma CheckpointAcrossSwap(p: Pool, amountCrsOut: nat, amountSrcOut: nat, to: Address, after: Custody)
    requires 0 < p.kLast && SwapKeepingCheckpoint(p, amountCrsOut, amountSrcOut, to, after).Ok?
    ensures var q := SwapKeepingCheckpoint(p, amountCrsOut, amountSrcOut, to, after).value;
            var rootK := Sqrt(Mul(q.reserveCrs, q.reserveSrc));
            Sqrt(p.kLast) < rootK ==>
              FeeShares(q, q.reserveCrs, q.reserveSrc) == FeeFormula(p.shares.totalSupply, rootK, Sqrt(p.kLast))
    ensures p.kLast == Mul(p.reserveCrs, p.reserveSrc) ==>
              var q := SwapKeepingCheckpoint(p, amountCrsOut, amountSrcOut, to, after).value;
              Sqrt(p.kLast) <= Sqrt(Mul(q.reserveCrs, q.reserveSrc))
  {
    SwapRaisesProduct(p, amountCrsOut, amountSrcOut, to, after);
    var q := SwapKeepingCheckpoint(p, amountCrsOut, amountSrcOut, to, after).value;
    if p.kLast == Mul(p.reserveCrs, p.reserveSrc) {
      SqrtMonotone(p.kLast, Mul(q.reserveCrs, q.reserveSrc));
    }
  }

  // ---------------------------------------------------------------------
  // Scenarios

  /** Equal first deposits of n CRS and n SRC into a new pool: above
      MINIMUM_LIQUIDITY the depositor gets n - 1000 shares and 1000 are
      locked at Address.Zero; exactly at it nothing can be minted; below it
      the minimum-liquidity subtraction underflows. */
  lemma FirstMintEqualDeposits(self: Address, token: Address, to: Address, n: nat)
    requires 0 < n <= MAX_U64 && to != ZERO_ADDRESS
    ensures var r := Pair.Mint(Deposit(EmptyPool(self, token), n, n), to, None);
            && (n > MINIMUM_LIQUIDITY ==>
                  && r.Ok? && r.value.liquidity == n - MINIMUM_LIQUIDITY
                  && BalanceOf(r.value.pool.shares, to) == n - MINIMUM_LIQUIDITY
                  && BalanceOf(r.value.pool.shares, ZERO_ADDRESS) == MINIMUM_LIQUIDITY
                  && r.value.pool.shares.totalSupply == n
                  && r.value.pool.reserveCrs == n && r.value.pool.reserveSrc == n
                  && r.value.pool.kLast == n * n)
            && (n == MINIMUM_LIQUIDITY ==> r == Err(InsufficientLiquidity))
            && (n < MINIMUM_LIQUIDITY ==> r == Err(Underflow))
  {
    var p := Deposit(EmptyPool(self, token), n, n);
    SqrtOfSquare(n);
    assert MintFee(p, 0, 0, None) == Ok(p);
    if n > MINIMUM_LIQUIDITY {
      var locked := TokenLedger.Mint(p.shares, MAX_U256, ZERO_ADDRESS, MINIMUM_LIQUIDITY);
      assert locked.Ok?;
      var m := MintShares(p.(shares := locked.value), to, n - MINIMUM_LIQUIDITY);
      assert m.Ok?;
      MintFirstDeposit(p, to, None);
    }
  }

  /** Reserves (1000, 1000): 90 SRC out needs at least 100 CRS in; 99 CRS
      in fails the product check; asking for the whole reserve fails. */
  lemma SwapScenario()
    ensures var p := Pool(7, 9, 1000, 1000, 1_000_000, Ledger(1000, map[ZERO_ADDRESS := 1000], map[]), 1000, 1000);
            && Swap(p, 0, 90, 5, Custody(1100, 910)).Ok?
            && Swap(p, 0, 90, 5, Custody(1099, 910)) == Err(ConstantProduct)
            && Swap(p, 0, 1000, 5, Custody(2000, 0)) == Err(InsufficientLiquidity)
            && Swap(p, 0, 90, 9, Custody(1100, 910)) == Err(InvalidTo)
            && Swap(p, 10, 90, 5, Custody(1100, 910)) == Err(InvalidOutputAmount)
  {
  }

  /** A swap that raises sqrt(k) from 1000 to 1095 on a pool with 1000
      shares and a fresh checkpoint: as written the next fee step charges
      nothing; with the checkpoint kept it mints 1000·95 / (1095·5 + 1000)
      = 14 shares to the fee beneficiary. */
  lemma CheckpointScenario(p: Pool, to: Address, after: Custody)
    requires p.reserveCrs == 1000 && p.reserveSrc == 1000 && p.balCrs == 1000 && p.balSrc == 1000
    requires p.kLast == 1_000_000 && p.shares.totalSupply == 1000 && to != p.token
    requires after.crs == 2000 && after.src == 600
    ensures Swap(p, 0, 400, to, after).Ok?
    ensures var q := Swap(p, 0, 400, to, after).value;
            FeeShares(q, q.reserveCrs, q.reserveSrc) == 0
    ensures var q := SwapKeepingCheckpoint(p, 0, 400, to, after).value;
            FeeShares(q, q.reserveCrs, q.reserveSrc) == 14
  {
    SwapResetsCheckpoint(p, 0, 400, to, after);
    CheckpointAcrossSwap(p, 0, 400, to, after);
    var q := SwapKeepingCheckpoint(p, 0, 400, to, after).value;
    ScenarioRoots(p.kLast, q.reserveCrs * q.reserveSrc);
    ScenarioFee(p.shares.totalSupply, Sqrt(q.reserveCrs * q.reserveSrc), Sqrt(p.kLast));
  }

  lemma ScenarioRoots(before: nat, after: nat)
    requires before == 1_000_000 && after == 1_200_000
    ensures Sqrt(before) == 1000 && Sqrt(after) == 1095
  {
    SqrtOfBracket(before, 1000);
    SqrtOfBracket(after, 1095);
  }

  lemma ScenarioFee(supply: nat, rootK: nat, rootKLast: nat)
    requires supply == 1000 && rootK == 1095 && rootKLast == 1000
    ensures FeeFormula(supply, rootK, rootKLast) == 14
  {
    var fee := FeeFormula(supply, rootK, rootKLast);
    assert fee * 6475 <= 95000 < fee * 6475 + 6475;
  }

  /** Reserves (2000, 2000), 1000 shares of which the pool holds 10, and a
      checkpoint of 10^6 left by an earlier state: Burn mints 90 fee shares
      for the growth of sqrt(k) from 1000 to 2000 and pays out 20 of each
      asset. As written KLast stays at 10^6, so the next fee step charges
      97 more shares for growth already paid for; with the checkpoint
      refreshed it charges nothing. */
  lemma BurnCheckpointScenario(p: Pool, to: Address)
    requires Pair.Valid(p) && p.self == 7
    requires p.reserveCrs == 2000 && p.reserveSrc == 2000 && p.balCrs == 2000 && p.balSrc == 2000
    requires p.kLast == 1_000_000 && p.shares.totalSupply == 1000
    requires BalanceOf(p.shares, 7) == 10 && BalanceOf(p.shares, 77) == 0
    ensures Pair.Burn(p, to, Some(77)).Ok?
    ensures FeeShares(p, p.reserveCrs, p.reserveSrc) == 90
    ensures var q := Pair.Burn(p, to, Some(77)).value.pool;
            && q.reserveCrs == 1980 && q.reserveSrc == 1980
            && q.shares.totalSupply == 1080
            && q.kLast == p.kLast
            && FeeShares(q, q.reserveCrs, q.reserveSrc) == 97
    ensures var q := BurnRefreshingCheckpoint(p, to, Some(77)).value.pool;
            FeeShares(q, q.reserveCrs, q.reserveSrc) == 0
  {
    BurnScenarioRoots(1000, p.reserveCrs, 1980);
    BurnScenarioFee(p.shares.totalSupply, 2000, 1000, 90);
    assert FeeShares(p, p.reserveCrs, p.reserveSrc) == 90;
    assert MulDiv(10, 2000, 1000) == 20;
    BurnSucceeds(p, to, Some(77));
    var q := Pair.Burn(p, to, Some(77)).value.pool;
    assert q.reserveCrs == 1980 && q.reserveSrc == 1980;
    BurnScenarioFee(q.shares.totalSupply, 1980, 1000, 97);
    FeeStepIdleAfterCheckpointBurn(p, to, Some(77), Some(77));
  }

  lemma BurnScenarioRoots(before: nat, atBurn: nat, afterBurn: nat)
    requires before == 1000 && atBurn == 2000 && afterBurn == 1980
    ensures Sqrt(before * before) == 1000 && Sqrt(atBurn * atBurn) == 2000
    ensures Sqrt(afterBurn * afterBurn) == 1980
  {
    SqrtOfSquare(before);
    SqrtOfSquare(atBurn);
    SqrtOfSquare(afterBurn);
  }

  lemma BurnScenarioFee(supply: nat, rootK: nat, rootKLast: nat, fee: nat)
    requires (supply, rootK, fee) in {(1000, 2000, 90), (1080, 1980, 97)} && rootKLast == 1000
    ensures FeeFormula(supply, rootK, rootKLast) == fee
  {
    var f := FeeFormula(supply, rootK, rootKLast);
    if supply == 1000 {
      assert f * 11000 <= 1_000_000 < f * 11000 + 11000;
    } else {
      assert f * 10900 <= 1_058_400 < f * 10900 + 10900;
    }
  }
}
