/** The fungible-token ledger shared by the pool's own shares (OpdexV1Pair,
    UInt256 amounts) and by the SRC token base (OpdexV1SRC, ulong amounts
    through SafeMath). Both contracts perform the same sequence of checked
    steps; they differ only in the largest representable amount, which is
    the `max` parameter here. An account with no entry holds zero. */
module TokenLedger {
  import opened Base
  import Arith

  datatype Ledger = Ledger(
    totalSupply: nat,
    balances: map<Address, nat>,
    allowances: map<(Address, Address), nat>)  // (owner, spender) -> amount

  function BalanceOf(l: Ledger, a: Address): nat {
    if a in l.balances then l.balances[a] else 0
  }

  function AllowanceOf(l: Ledger, owner: Address, spender: Address): nat {
    if (owner, spender) in l.allowances then l.allowances[(owner, spender)] else 0
  }

  /** Two ledgers that agree on every observable amount. */
  ghost predicate Same(l: Ledger, l': Ledger) {
    && l.totalSupply == l'.totalSupply
    && (forall a :: BalanceOf(l, a) == BalanceOf(l', a))
    && (forall o, s :: AllowanceOf(l, o, s) == AllowanceOf(l', o, s))
  }

  // ---------------------------------------------------------------------
  // The sum of all balances

  ghost function Pick(m: map<Address, nat>): Address
    requires m != map[]
  {
    var k :| k in m; k
  }

  ghost function Sum(m: map<Address, nat>): nat
    decreases |m|
  {
    if m == map[] then 0
    else
      var k := Pick(m);
      assert |m - {k}| < |m| by { assert m.Keys == (m - {k}).Keys + {k}; }
      m[k] + Sum(m - {k})
  }

  /** The supply invariant: TotalSupply is the sum of every balance and is
      representable. */
  ghost predicate Valid(l: Ledger, max: nat) {
    l.totalSupply == Sum(l.balances) && l.totalSupply <= max
  }

  lemma {:induction false} SumRemove(m: map<Address, nat>, k: Address)
    requires k in m
    ensures Sum(m) == m[k] + Sum(m - {k})
    decreases |m|
  {
    var j := Pick(m);
    assert |m - {j}| < |m| by { assert m.Keys == (m - {j}).Keys + {j}; }
    if j != k {
      assert |m - {k}| < |m| by { assert m.Keys == (m - {k}).Keys + {k}; }
      SumRemove(m - {j}, k);
      SumRemove(m - {k}, j);
      assert m - {j} - {k} == m - {k} - {j};
    }
  }

  /** Overwriting one balance changes the sum by exactly the difference. */
  lemma SumUpdate(m: map<Address, nat>, k: Address, v: nat)
    ensures k in m ==> Sum(m[k := v]) + m[k] == Sum(m) + v
    ensures k !in m ==> Sum(m[k := v]) == Sum(m) + v
  {
    SumRemove(m[k := v], k);
    assert m[k := v] - {k} == m - {k};
    if k in m {
      SumRemove(m, k);
    } else {
      assert m - {k} == m;
    }
  }

  /** No single balance of a valid ledger exceeds the total supply. */
  lemma BalanceWithinSupply(l: Ledger, max: nat, a: Address)
    requires Valid(l, max)
    ensures BalanceOf(l, a) <= l.totalSupply
  {
    if a in l.balances {
      SumRemove(l.balances, a);
    }
  }

  // ---------------------------------------------------------------------
  // Operations

  /** MintExecute: TotalSupply and balance[to] both grow by `value`; either
      addition overflowing aborts. */
  function Mint(l: Ledger, max: nat, to: Address, value: nat): (r: Result<Ledger>)
    ensures r.Ok? <==> l.totalSupply + value <= max && BalanceOf(l, to) + value <= max
    ensures r.Err? ==> r.error == Overflow
    ensures r.Ok? ==> r.value.totalSupply == l.totalSupply + value
    ensures r.Ok? ==> BalanceOf(r.value, to) == BalanceOf(l, to) + value
    ensures r.Ok? ==> forall a :: a != to ==> BalanceOf(r.value, a) == BalanceOf(l, a)
    ensures r.Ok? ==> r.value.allowances == l.allowances
  {
    var supply :- Arith.CheckedAdd(l.totalSupply, value, max);
    var balance :- Arith.CheckedAdd(BalanceOf(l, to), value, max);
    Ok(l.(totalSupply := supply, balances := l.balances[to := balance]))
  }

  /** BurnExecute: balance[from] and TotalSupply both shrink by `value`;
      either going below zero aborts. */
  function Burn(l: Ledger, from: Address, value: nat): (r: Result<Ledger>)
    ensures r.Ok? <==> value <= BalanceOf(l, from) && value <= l.totalSupply
    ensures r.Err? ==> r.error == Underflow
    ensures r.Ok? ==> r.value.totalSupply + value == l.totalSupply
    ensures r.Ok? ==> BalanceOf(r.value, from) + value == BalanceOf(l, from)
    ensures r.Ok? ==> forall a :: a != from ==> BalanceOf(r.value, a) == BalanceOf(l, a)
    ensures r.Ok? ==> r.value.allowances == l.allowances
  {
    var balance :- Arith.CheckedSub(BalanceOf(l, from), value);
    var supply :- Arith.CheckedSub(l.totalSupply, value);
    Ok(l.(totalSupply := supply, balances := l.balances[from := balance]))
  }

  /** TransferExecute: debit `from`, then credit `to` reading the balance
      after the debit, so a transfer to oneself changes nothing. */
  function Transfer(l: Ledger, max: nat, from: Address, to: Address, value: nat): (r: Result<Ledger>)
    ensures r.Ok? <==> value <= BalanceOf(l, from) &&
                       (if from == to then BalanceOf(l, from) <= max else BalanceOf(l, to) + value <= max)
    ensures r.Err? ==> r.error == Underflow || r.error == Overflow
    ensures r.Ok? ==> r.value.totalSupply == l.totalSupply && r.value.allowances == l.allowances
    ensures r.Ok? && from == to ==> forall a :: BalanceOf(r.value, a) == BalanceOf(l, a)
    ensures r.Ok? && from != to ==> BalanceOf(r.value, from) + value == BalanceOf(l, from)
    ensures r.Ok? && from != to ==> BalanceOf(r.value, to) == BalanceOf(l, to) + value
    ensures r.Ok? ==> forall a :: a != from && a != to ==> BalanceOf(r.value, a) == BalanceOf(l, a)
  {
    var fromBalance :- Arith.CheckedSub(BalanceOf(l, from), value);
    var debited := l.(balances := l.balances[from := fromBalance]);
    var toBalance :- Arith.CheckedAdd(BalanceOf(debited, to), value, max);
    Ok(debited.(balances := debited.balances[to := toBalance]))
  }

  /** Approve / ApproveExecute: overwrite allowance[owner][spender]. */
  function Approve(l: Ledger, owner: Address, spender: Address, value: nat): (r: Ledger)
    ensures AllowanceOf(r, owner, spender) == value
    ensures forall o, s :: (o != owner || s != spender) ==> AllowanceOf(r, o, s) == AllowanceOf(l, o, s)
    ensures r.totalSupply == l.totalSupply && r.balances == l.balances
  {
    l.(allowances := l.allowances[(owner, spender) := value])
  }

  /** The allowance step of TransferFrom as written: a positive allowance is
      reduced by `value` (aborting if it is smaller), a zero allowance is
      left alone and checks nothing. */
  function SpendAllowance(l: Ledger, owner: Address, spender: Address, value: nat): (r: Result<Ledger>)
    ensures r.Ok? <==> AllowanceOf(l, owner, spender) == 0 || value <= AllowanceOf(l, owner, spender)
    ensures r.Err? ==> r.error == Underflow
    ensures r.Ok? && AllowanceOf(l, owner, spender) > 0 ==>
              AllowanceOf(r.value, owner, spender) + value == AllowanceOf(l, owner, spender)
    ensures r.Ok? && AllowanceOf(l, owner, spender) == 0 ==> r.value == l
    ensures r.Ok? ==> forall o, s :: (o != owner || s != spender) ==> AllowanceOf(r.value, o, s) == AllowanceOf(l, o, s)
    ensures r.Ok? ==> r.value.totalSupply == l.totalSupply && r.value.balances == l.balances
  {
    var allowance := AllowanceOf(l, owner, spender);
    if allowance > 0 then
      var rest :- Arith.CheckedSub(allowance, value);
      Ok(Approve(l, owner, spender, rest))
    else
      Ok(l)
  }

  /** TransferFrom as written: the allowance step, then TransferExecute. */
  function TransferFrom(l: Ledger, max: nat, spender: Address, from: Address, to: Address, value: nat): (r: Result<Ledger>)
    ensures r.Ok? <==> (AllowanceOf(l, from, spender) == 0 || value <= AllowanceOf(l, from, spender)) &&
                       Transfer(l, max, from, to, value).Ok?
    ensures r.Ok? && AllowanceOf(l, from, spender) > 0 ==>
              AllowanceOf(r.value, from, spender) + value == AllowanceOf(l, from, spender)
    ensures r.Ok? && AllowanceOf(l, from, spender) == 0 ==> AllowanceOf(r.value, from, spender) == 0
    ensures r.Ok? ==> r.value.balances == Transfer(l, max, from, to, value).value.balances
    ensures r.Ok? ==> r.value.totalSupply == l.totalSupply
    ensures r.Ok? ==> forall o, s :: (o != from || s != spender) ==> AllowanceOf(r.value, o, s) == AllowanceOf(l, o, s)
  {
    var spent :- SpendAllowance(l, from, spender, value);
    Transfer(spent, max, from, to, value)
  }

  /** TransferFrom with the allowance check it evidently intends: the
      allowance must cover `value` whatever its size. */
  function TransferFromChecked(l: Ledger, max: nat, spender: Address, from: Address, to: Address, value: nat): (r: Result<Ledger>)
    ensures r.Ok? ==> value <= AllowanceOf(l, from, spender)
    ensures r.Ok? ==> AllowanceOf(r.value, from, spender) + value == AllowanceOf(l, from, spender)
    ensures r.Ok? <==> value <= AllowanceOf(l, from, spender) && Transfer(l, max, from, to, value).Ok?
    ensures r.Ok? ==> r.value.balances == Transfer(l, max, from, to, value).value.balances
    ensures r.Ok? ==> r.value.totalSupply == l.totalSupply
    ensures r.Ok? ==> forall o, s :: (o != from || s != spender) ==> AllowanceOf(r.value, o, s) == AllowanceOf(l, o, s)
  {
    var rest :- Arith.CheckedSub(AllowanceOf(l, from, spender), value);
    Transfer(Approve(l, from, spender, rest), max, from, to, value)
  }

  // ---------------------------------------------------------------------
  // Supply invariant and round trips

  lemma MintKeepsSupply(l: Ledger, max: nat, to: Address, value: nat)
    requires Valid(l, max) && Mint(l, max, to, value).Ok?
    ensures Valid(Mint(l, max, to, value).value, max)
  {
    SumUpdate(l.balances, to, BalanceOf(l, to) + value);
  }

  lemma BurnKeepsSupply(l: Ledger, max: nat, from: Address, value: nat)
    requires Valid(l, max) && Burn(l, from, value).Ok?
    ensures Valid(Burn(l, from, value).value, max)
  {
    SumUpdate(l.balances, from, BalanceOf(l, from) - value);
  }

  lemma TransferKeepsSupply(l: Ledger, max: nat, from: Address, to: Address, value: nat)
    requires Valid(l, max) && Transfer(l, max, from, to, value).Ok?
    ensures Valid(Transfer(l, max, from, to, value).value, max)
  {
    var fromBalance := BalanceOf(l, from) - value;
    var debited := l.balances[from := fromBalance];
    SumUpdate(l.balances, from, fromBalance);
    var toOld := if to in debited then debited[to] else 0;
    SumUpdate(debited, to, toOld + value);
  }

  lemma TransferFromKeepsSupply(l: Ledger, max: nat, spender: Address, from: Address, to: Address, value: nat)
    requires Valid(l, max) && TransferFrom(l, max, spender, from, to, value).Ok?
    ensures Valid(TransferFrom(l, max, spender, from, to, value).value, max)
  {
    var spent := SpendAllowance(l, from, spender, value).value;
    TransferKeepsSupply(spent, max, from, to, value);
  }

  /** In a valid ledger only the supply can overflow: a mint that keeps
      TotalSupply representable also keeps the recipient's balance so. */
  lemma MintFailsOnlyOnSupply(l: Ledger, max: nat, to: Address, value: nat)
    requires Valid(l, max)
    ensures Mint(l, max, to, value).Ok? <==> l.totalSupply + value <= max
  {
    BalanceWithinSupply(l, max, to);
  }

  /** In a valid ledger a transfer fails only when the sender's balance is
      short: the receiver can never overflow. */
  lemma TransferFailsOnlyOnBalance(l: Ledger, max: nat, from: Address, to: Address, value: nat)
    requires Valid(l, max)
    ensures Transfer(l, max, from, to, value).Ok? <==> value <= BalanceOf(l, from)
  {
    BalanceWithinSupply(l, max, from);
    BalanceWithinSupply(l, max, to);
    if from != to && value <= BalanceOf(l, from) && to in l.balances && from in l.balances {
      SumRemove(l.balances, from);
      SumRemove(l.balances - {from}, to);
    }
  }

  /** Burning what was just minted restores every amount. */
  lemma MintThenBurn(l: Ledger, max: nat, a: Address, value: nat)
    requires Mint(l, max, a, value).Ok?
    ensures Burn(Mint(l, max, a, value).value, a, value).Ok?
    ensures Same(Burn(Mint(l, max, a, value).value, a, value).value, l)
  {
  }

  /** Sending an amount back undoes the transfer. */
  lemma TransferThenBack(l: Ledger, max: nat, from: Address, to: Address, value: nat)
    requires Valid(l, max) && Transfer(l, max, from, to, value).Ok?
    ensures Transfer(Transfer(l, max, from, to, value).value, max, to, from, value).Ok?
    ensures Same(Transfer(Transfer(l, max, from, to, value).value, max, to, from, value).value, l)
  {
    BalanceWithinSupply(l, max, from);
  }

  /** The corrected TransferFrom keeps the supply invariant too. */
  lemma TransferFromCheckedKeepsSupply(l: Ledger, max: nat, spender: Address, from: Address, to: Address, value: nat)
    requires Valid(l, max) && TransferFromChecked(l, max, spender, from, to, value).Ok?
    ensures Valid(TransferFromChecked(l, max, spender, from, to, value).value, max)
  {
    var rest := AllowanceOf(l, from, spender) - value;
    TransferKeepsSupply(Approve(l, from, spender, rest), max, from, to, value);
  }

  /** The two TransferFrom definitions differ only at a zero allowance:
      with a positive allowance they agree exactly, and at zero the
      corrected one refuses every positive amount. */
  lemma TransferFromCheckedDiffersOnlyAtZero(l: Ledger, max: nat, spender: Address, from: Address, to: Address, value: nat)
    ensures AllowanceOf(l, from, spender) > 0 ==>
              TransferFromChecked(l, max, spender, from, to, value) == TransferFrom(l, max, spender, from, to, value)
    ensures AllowanceOf(l, from, spender) == 0 && value > 0 ==>
              TransferFromChecked(l, max, spender, from, to, value) == Err(Underflow)
  {
  }

  /** The allowance bypass of TransferFrom as written: an account with no
      allowance at all can move another account's entire balance. */
  lemma ZeroAllowanceBypass(max: nat)
    requires 100 <= max
    ensures var victim, thief := 1, 2;
            var l := Ledger(100, map[victim := 100], map[]);
            && AllowanceOf(l, victim, thief) == 0
            && TransferFrom(l, max, thief, victim, thief, 100).Ok?
            && BalanceOf(TransferFrom(l, max, thief, victim, thief, 100).value, thief) == 100
            && TransferFromChecked(l, max, thief, victim, thief, 100).Err?
  {
  }
}
