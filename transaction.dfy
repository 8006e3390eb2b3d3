/** A transfer of `amount` from one address to another (Transaction.py).
    `fromAddress == None` marks a reward minted by the system. */
module Transactions {
  import opened Wrappers

  datatype Tx = Tx(fromAddress: Option<string>, toAddress: string, amount: int)
}
