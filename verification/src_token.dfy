/** OpdexV1SRC: the ulong token ledger base. Every amount is a ulong and
    every addition and subtraction goes through SafeMath, so the ledger is
    the shared TokenLedger with 2^64 - 1 as its largest amount. The public
    entry points act for `sender`, the message sender of the call. */
module SrcToken {
  import opened Base
  import opened Arith
  import opened TokenLedger

  function MintExecute(l: Ledger, to: Address, value: nat): (r: Result<Ledger>)
    ensures r.Ok? <==> l.totalSupply + value <= MAX_U64 && BalanceOf(l, to) + value <= MAX_U64
    ensures r.Ok? ==> r.value.totalSupply == l.totalSupply + value
    ensures r.Ok? ==> BalanceOf(r.value, to) == BalanceOf(l, to) + value
    ensures r.Ok? ==> forall a :: a != to ==> BalanceOf(r.value, a) == BalanceOf(l, a)
    ensures r.Ok? ==> r.value.allowances == l.allowances
  {
    Mint(l, MAX_U64, to, value)
  }

  function BurnExecute(l: Ledger, from: Address, value: nat): (r: Result<Ledger>)
    ensures r.Ok? <==> value <= BalanceOf(l, from) && value <= l.totalSupply
    ensures r.Ok? ==> r.value.totalSupply == l.totalSupply - value
    ensures r.Ok? ==> BalanceOf(r.value, from) == BalanceOf(l, from) - value
    ensures r.Ok? ==> forall a :: a != from ==> BalanceOf(r.value, a) == BalanceOf(l, a)
    ensures r.Ok? ==> r.value.allowances == l.allowances
  {
    Burn(l, from, value)
  }

  function TransferExecute(l: Ledger, from: Address, to: Address, value: nat): (r: Result<Ledger>)
    ensures r.Ok? ==> value <= BalanceOf(l, from)
    ensures value > BalanceOf(l, from) ==> r == Err(Underflow)
    ensures r.Ok? && from == to ==> forall a :: BalanceOf(r.value, a) == BalanceOf(l, a)
    ensures r.Ok? && from != to ==>
              BalanceOf(r.value, from) == BalanceOf(l, from) - value &&
              BalanceOf(r.value, to) == BalanceOf(l, to) + value
    ensures r.Ok? ==> forall a :: a != from && a != to ==> BalanceOf(r.value, a) == BalanceOf(l, a)
    ensures r.Ok? ==> r.value.totalSupply == l.totalSupply
  {
    Transfer(l, MAX_U64, from, to, value)
  }

  /** Approve always succeeds (returns true); only the one allowance moves. */
  function Approve(l: Ledger, sender: Address, spender: Address, value: nat): (r: Ledger)
    ensures AllowanceOf(r, sender, spender) == value
    ensures forall o, s :: (o != sender || s != spender) ==> AllowanceOf(r, o, s) == AllowanceOf(l, o, s)
    ensures forall a :: BalanceOf(r, a) == BalanceOf(l, a)
    ensures r.totalSupply == l.totalSupply
  {
    TokenLedger.Approve(l, sender, spender, value)
  }

  /** TransferTo: the message sender moves its own tokens. */
  function TransferTo(l: Ledger, sender: Address, to: Address, value: nat): (r: Result<Ledger>)
    ensures r.Ok? <==> value <= BalanceOf(l, sender) &&
                       (if sender == to then BalanceOf(l, sender) <= MAX_U64 else BalanceOf(l, to) + value <= MAX_U64)
    ensures value > BalanceOf(l, sender) ==> r == Err(Underflow)
    ensures r.Ok? && sender == to ==> forall a :: BalanceOf(r.value, a) == BalanceOf(l, a)
    ensures r.Ok? && sender != to ==>
              BalanceOf(r.value, sender) == BalanceOf(l, sender) - value &&
              BalanceOf(r.value, to) == BalanceOf(l, to) + value
    ensures r.Ok? ==> forall a :: a != sender && a != to ==> BalanceOf(r.value, a) == BalanceOf(l, a)
    ensures r.Ok? ==> r.value.totalSupply == l.totalSupply && r.value.allowances == l.allowances
  {
    TransferExecute(l, sender, to, value)
  }

  /** TransferFrom as written: a zero allowance is not checked at all. */
  function TransferFrom(l: Ledger, sender: Address, from: Address, to: Address, value: nat): (r: Result<Ledger>)
    ensures AllowanceOf(l, from, sender) > 0 && AllowanceOf(l, from, sender) < value ==> r == Err(Underflow)
    ensures r.Ok? && AllowanceOf(l, from, sender) > 0 ==>
              AllowanceOf(r.value, from, sender) == AllowanceOf(l, from, sender) - value
    ensures AllowanceOf(l, from, sender) == 0 ==> r == TransferExecute(l, from, to, value)
    ensures r.Ok? <==> (AllowanceOf(l, from, sender) == 0 || value <= AllowanceOf(l, from, sender)) &&
                       value <= BalanceOf(l, from) &&
                       (if from == to then BalanceOf(l, from) <= MAX_U64 else BalanceOf(l, to) + value <= MAX_U64)
    ensures r.Ok? && from != to ==>
              BalanceOf(r.value, from) == BalanceOf(l, from) - value &&
              BalanceOf(r.value, to) == BalanceOf(l, to) + value
    ensures r.Ok? ==> forall a :: (a != from && a != to) || from == to ==> BalanceOf(r.value, a) == BalanceOf(l, a)
    ensures r.Ok? ==> r.value.totalSupply == l.totalSupply
    ensures r.Ok? ==> forall o, s :: (o != from || s != sender) ==> AllowanceOf(r.value, o, s) == AllowanceOf(l, o, s)
  {
    TokenLedger.TransferFrom(l, MAX_U64, sender, from, to, value)
  }

  /** The SRC supply invariant (TotalSupply equals the sum of all balances,
      within ulong) survives every ledger operation. */
  lemma OperationsKeepSupply(l: Ledger, sender: Address, from: Address, to: Address, value: nat)
    requires Valid(l, MAX_U64)
    ensures MintExecute(l, to, value).Ok? ==> Valid(MintExecute(l, to, value).value, MAX_U64)
    ensures BurnExecute(l, from, value).Ok? ==> Valid(BurnExecute(l, from, value).value, MAX_U64)
    ensures TransferTo(l, sender, to, value).Ok? ==> Valid(TransferTo(l, sender, to, value).value, MAX_U64)
    ensures TransferFrom(l, sender, from, to, value).Ok? ==> Valid(TransferFrom(l, sender, from, to, value).value, MAX_U64)
    ensures Valid(Approve(l, sender, to, value), MAX_U64)
  {
    if MintExecute(l, to, value).Ok? { MintKeepsSupply(l, MAX_U64, to, value); }
    if BurnExecute(l, from, value).Ok? { BurnKeepsSupply(l, MAX_U64, from, value); }
    if TransferTo(l, sender, to, value).Ok? { TransferKeepsSupply(l, MAX_U64, sender, to, value); }
    if TransferFrom(l, sender, from, to, value).Ok? {
      TransferFromKeepsSupply(l, MAX_U64, sender, from, to, value);
    }
  }

  /** On a valid SRC ledger a mint fails exactly when the new TotalSupply
      would exceed 2^64 - 1, and a transfer exactly when the sender's
      balance is short. */
  lemma FailuresOnValidLedger(l: Ledger, from: Address, to: Address, value: nat)
    requires Valid(l, MAX_U64)
    ensures MintExecute(l, to, value).Err? <==> l.totalSupply + value > MAX_U64
    ensures TransferExecute(l, from, to, value).Err? <==> value > BalanceOf(l, from)
    ensures TransferTo(l, from, to, value).Ok? <==> value <= BalanceOf(l, from)
  {
    MintFailsOnlyOnSupply(l, MAX_U64, to, value);
    TransferFailsOnlyOnBalance(l, MAX_U64, from, to, value);
  }
}
