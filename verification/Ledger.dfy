/** ETH balances and plain transfers between them. */
module Ledger {
  import opened Evm

  type Balances = map<Address, nat>

  function Balance(b: Balances, a: Address): nat {
    if a in b then b[a] else 0
  }

  function Set(b: Balances, a: Address, amount: nat): Balances {
    b[a := amount]
  }

  /** A value-bearing call: it fails without funds or when the callee refuses. */
  function Pay(b: Balances, from: Address, to: Address, amount: nat, accepted: bool): Option<Balances> {
    if Balance(b, from) < amount || !accepted then None
    else
      var debited := Set(b, from, Balance(b, from) - amount);
      Some(Set(debited, to, Balance(debited, to) + amount))
  }

  /** All ETH held by anyone. */
  ghost function Total(b: Balances): nat {
    if b == map[] then 0
    else
      var a :| a in b;
      b[a] + Total(b - {a})
  }

  lemma {:induction false} TotalSplit(b: Balances, a: Address)
    requires a in b
    ensures Total(b) == b[a] + Total(b - {a})
    decreases |b|
  {
    var x :| x in b && Total(b) == b[x] + Total(b - {x});
    if x != a {
      TotalSplit(b - {x}, a);
      TotalSplit(b - {a}, x);
      assert b - {x} - {a} == b - {a} - {x};
    }
  }

  lemma TotalAfterSet(b: Balances, a: Address, amount: nat)
    ensures Total(Set(b, a, amount)) == Total(b) - Balance(b, a) + amount
  {
    var b' := Set(b, a, amount);
    TotalSplit(b', a);
    if a in b {
      TotalSplit(b, a);
      assert b' - {a} == b - {a};
    } else {
      assert b' - {a} == b;
    }
  }

  lemma PayConserves(b: Balances, from: Address, to: Address, amount: nat)
    requires Pay(b, from, to, amount, true).Some?
    ensures Total(Pay(b, from, to, amount, true).value) == Total(b)
  {
    var debited := Set(b, from, Balance(b, from) - amount);
    TotalAfterSet(b, from, Balance(b, from) - amount);
    TotalAfterSet(debited, to, Balance(debited, to) + amount);
  }

  /** The chain's balances, shared by every contract. */
  class Bank {
    var balances: Balances

    method Transfer(from: Address, to: Address, amount: nat, accepted: bool) returns (success: bool)
      modifies this
      ensures match Pay(old(balances), from, to, amount, accepted)
              case Some(b) => success && balances == b
              case None => !success && balances == old(balances)
    {
      if Balance(balances, from) < amount || !accepted { return false; }
      balances := Set(balances, from, Balance(balances, from) - amount);
      balances := Set(balances, to, Balance(balances, to) + amount);
      return true;
    }
  }
}
