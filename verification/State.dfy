/** Accounts, the committed database with the journal over it, and sums of balances. */
module State {
  import opened Primitives
  import opened L1Block

  /** Bytecode as EIP-3607 sees it: none, an EIP-7702 delegation designator, or a contract. */
  datatype Code = NoCode | Delegation | Contract

  datatype Account = Account(balance: u256, nonce: u64, code: Code)

  const EMPTY_ACCOUNT := Account(0, 0, NoCode)

  type Accounts = map<Address, Account>

  datatype World = World(accounts: Accounts, storage: Storage)

  const EMPTY_WORLD := World(map[], map[])

  /** `writes` laid over `base`. */
  function Overlay(base: World, writes: World): World {
    World(base.accounts + writes.accounts, base.storage + writes.storage)
  }

  function AccountAt(accounts: Accounts, a: Address): Account {
    if a in accounts then accounts[a] else EMPTY_ACCOUNT
  }

  function BalanceOf(accounts: Accounts, a: Address): u256 {
    AccountAt(accounts, a).balance
  }

  // ----- total supply

  ghost function TotalSupply(accounts: Accounts): nat
    decreases |accounts|
  {
    if accounts == map[] then 0 else
    var a :| a in accounts;
    accounts[a].balance + TotalSupply(accounts - {a})
  }

  /** The sum does not depend on the order in which accounts are visited. */
  lemma {:induction false} SupplySplit(accounts: Accounts, a: Address)
    requires a in accounts
    ensures TotalSupply(accounts) == accounts[a].balance + TotalSupply(accounts - {a})
    decreases |accounts|
  {
    var first :| first in accounts && TotalSupply(accounts) == accounts[first].balance + TotalSupply(accounts - {first});
    if first != a {
      SupplySplit(accounts - {first}, a);
      SupplySplit(accounts - {a}, first);
      assert accounts - {first} - {a} == accounts - {a} - {first};
    }
  }

  /** Writing one account changes the supply by the change of that balance. */
  lemma SupplyUpdate(accounts: Accounts, a: Address, account: Account)
    ensures TotalSupply(accounts[a := account]) == TotalSupply(accounts) - BalanceOf(accounts, a) + account.balance
  {
    var updated := accounts[a := account];
    SupplySplit(updated, a);
    assert updated - {a} == accounts - {a};
    if a in accounts {
      SupplySplit(accounts, a);
    } else {
      assert accounts - {a} == accounts;
    }
  }

  lemma BalanceWithinSupply(accounts: Accounts, a: Address)
    ensures BalanceOf(accounts, a) <= TotalSupply(accounts)
  {
    if a in accounts {
      SupplySplit(accounts, a);
    }
  }

  lemma SupplyRemove(accounts: Accounts, a: Address)
    ensures TotalSupply(accounts) == BalanceOf(accounts, a) + TotalSupply(accounts - {a})
  {
    if a in accounts {
      SupplySplit(accounts, a);
    } else {
      assert accounts - {a} == accounts;
    }
  }

  /** Balances that are nowhere larger add up to no more. */
  lemma {:induction false} SupplyMonotone(low: Accounts, high: Accounts)
    requires forall x :: BalanceOf(low, x) <= BalanceOf(high, x)
    ensures TotalSupply(low) <= TotalSupply(high)
    decreases |low|
  {
    if low != map[] {
      var a :| a in low;
      SupplyRemove(low, a);
      SupplyRemove(high, a);
      forall x
        ensures BalanceOf(low - {a}, x) <= BalanceOf(high - {a}, x)
      {
        assert BalanceOf(low, x) <= BalanceOf(high, x);
      }
      SupplyMonotone(low - {a}, high - {a});
    }
  }

  predicate HasRoom(accounts: Accounts, a: Address) {
    BalanceOf(accounts, a) < U256_MAX
  }

  /** Were every account full, no other distribution would add up to the same. */
  lemma FullStaysFull(full: Accounts, other: Accounts, a: Address)
    requires forall x :: !HasRoom(full, x)
    requires TotalSupply(other) == TotalSupply(full)
    ensures !HasRoom(other, a)
  {
    var filled := other[a := AccountAt(other, a).(balance := U256_MAX)];
    SupplyUpdate(other, a, filled[a]);
    forall x
      ensures BalanceOf(filled, x) <= BalanceOf(full, x)
    {
      assert !HasRoom(full, x);
    }
    SupplyMonotone(filled, full);
  }
}
