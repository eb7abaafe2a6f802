/** Shared vocabulary of the model: account addresses, the failures a call
    can abort with, and the failure-compatible Result and Option types. */
module Base {

  /** A Stratis account address. Address.Zero is address 0. */
  type Address = nat

  const ZERO_ADDRESS: Address := 0

  /** Why a call aborts. On the chain every failure reverts the whole call,
      so an operation either returns a new state or one of these. */
  datatype Error =
    | Overflow                    // a checked addition exceeded the type's maximum
    | Underflow                   // a checked subtraction would go below zero
    | DivisionByZero
    | TransferFailed              // an outgoing transfer larger than the pool's custody
    | InsufficientLiquidity       // "OPDEX: INSUFFICIENT_LIQUIDITY"
    | InsufficientLiquidityBurned // "OPDEX: INSUFFICIENT_LIQUIDITY_BURNED"
    | InvalidOutputAmount         // "OPDEX: INVALID_OUTPUT_AMOUNT"
    | InvalidTo                   // "OPDEX: INVALID_TO"
    | InsufficientInputAmount     // "OPDEX: INSUFFICIENT_INPUT_AMOUNT"
    | ConstantProduct             // the unlabelled fee-adjusted product assertion of Swap
    | InvalidBorrower             // the unlabelled recipient assertion of Borrow
    | CallbackFailed              // the borrower's callback did not succeed
    | InsufficientDebtPaid        // "OPDEX: INSUFFICIENT_DEBT_PAID"
    | InvalidFeeTo                // "OPDEX: INVALID_FEE_TO_ADDRESS"

  datatype Result<+T> = Ok(value: T) | Err(error: Error) {

    predicate IsFailure() {
      Err?
    }

    function PropagateFailure<U>(): Result<U>
      requires Err?
    {
      Err(error)
    }

    function Extract(): T
      requires Ok?
    {
      value
    }
  }

  datatype Option<+T> = None | Some(value: T)
}
