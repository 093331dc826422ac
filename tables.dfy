/**
 * The four tables of the deposit ledger (`init_db` in accountwallet.py) as
 * sequences of rows, the constraints the schema and the ledger operations
 * keep on them, and the sums the ledger's invariants are stated with.
 *
 * Amounts (balances, output values, withdrawal amounts) are integers
 * counting 1e-8 coin units.
 */
module Tables {
  import opened Wrappers

  /** `check(amount >= 0.1)` on withdrawal_req, in 1e-8 units. */
  const MinWithdrawal: int := 10_000_000

  /** The values of the `confirmed` column of notified_tx. */
  const Errored: int := -1
  const Pending: int := 0
  const Settled: int := 1
  const Unattributed: int := 2

  /** account_wallet(account text unique not null, balance real default 0.0 check(balance >= 0.0) not null) */
  datatype WalletRow = WalletRow(account: string, balance: int)

  /** account_address(account text not null, address text unique not null) */
  datatype AddressRow = AddressRow(account: string, address: string)

  /** notified_tx(txid text not null, time integer not null, confirmed integer default 0 not null, account text, value real) */
  datatype TxRow = TxRow(txid: string, time: int, confirmed: int, account: Option<string>, value: Option<int>)

  /** withdrawal_req(account text not null, address text not null, amount real check(amount >= 0.1) not null, completed integer default 0 not null) */
  datatype WithdrawalRow = WithdrawalRow(account: string, address: string, amount: int, completed: int)

  datatype Tables = Tables(
    wallets: seq<WalletRow>,
    addresses: seq<AddressRow>,
    notified: seq<TxRow>,
    withdrawals: seq<WithdrawalRow>)

  /** The database right after `init_db`. */
  const Empty: Tables := Tables([], [], [], [])

  // ---------------------------------------------------------------- columns

  function Accounts(ws: seq<WalletRow>): (r: seq<string>)
    ensures |r| == |ws| && forall i :: 0 <= i < |ws| ==> r[i] == ws[i].account
  {
    seq(|ws|, i requires 0 <= i < |ws| => ws[i].account)
  }

  function BoundAddresses(rows: seq<AddressRow>): (r: seq<string>)
    ensures |r| == |rows| && forall i :: 0 <= i < |rows| ==> r[i] == rows[i].address
  {
    seq(|rows|, i requires 0 <= i < |rows| => rows[i].address)
  }

  /**
   * The account column of `account_address`.  It has the shape of `Accounts`
   * but reads a different row type, which Dafny cannot share without a
   * projection parameter.
   */
  function BindingAccounts(rows: seq<AddressRow>): (r: seq<string>)
    ensures |r| == |rows| && forall i :: 0 <= i < |rows| ==> r[i] == rows[i].account
  {
    seq(|rows|, i requires 0 <= i < |rows| => rows[i].account)
  }

  function Txids(rows: seq<TxRow>): (r: seq<string>)
    ensures |r| == |rows| && forall i :: 0 <= i < |rows| ==> r[i] == rows[i].txid
  {
    seq(|rows|, i requires 0 <= i < |rows| => rows[i].txid)
  }

  // ---------------------------------------------------------------- lookups

  /** `select balance from account_wallet where account == ?` then `fetchone()`: the first row with that account. */
  function WalletIndex(ws: seq<WalletRow>, a: string): (r: Option<nat>)
    ensures r.None? <==> a !in Accounts(ws)
    ensures r.Some? ==> r.value < |ws| && ws[r.value].account == a
    ensures r.Some? ==> forall j :: 0 <= j < r.value ==> ws[j].account != a
  {
    if ws == [] then None
    else if ws[0].account == a then Some(0)
    else
      match WalletIndex(ws[1..], a)
      case None => None
      case Some(k) => Some(k + 1)
  }

  /** `select account from account_address where address == ?` then `fetchone()`. */
  function AccountOf(rows: seq<AddressRow>, address: string): (r: Option<string>)
    ensures r.None? <==> address !in BoundAddresses(rows)
    ensures r.Some? ==> AddressRow(r.value, address) in rows && r.value in BindingAccounts(rows)
  {
    if rows == [] then None
    else if rows[0].address == address then Some(rows[0].account)
    else AccountOf(rows[1..], address)
  }

  // ------------------------------------------------------------ constraints

  predicate UniqueAccounts(ws: seq<WalletRow>) {
    forall i, j :: 0 <= i < j < |ws| ==> ws[i].account != ws[j].account
  }

  predicate UniqueAddresses(rows: seq<AddressRow>) {
    forall i, j :: 0 <= i < j < |rows| ==> rows[i].address != rows[j].address
  }

  /**
   * A notified_tx row as the ledger writes it: a known state; an account
   * exactly when a value; values non-negative; pending and settled rows
   * attributed, unattributed rows not; every attributed account has a wallet.
   */
  predicate WellFormed(r: TxRow, ws: seq<WalletRow>) {
    && (r.confirmed == Errored || r.confirmed == Pending || r.confirmed == Settled || r.confirmed == Unattributed)
    && (r.account.Some? <==> r.value.Some?)
    && (r.value.Some? ==> r.value.value >= 0)
    && (r.confirmed == Pending || r.confirmed == Settled ==> r.account.Some?)
    && (r.confirmed == Unattributed ==> r.account.None?)
    && (r.account.Some? ==> r.account.value in Accounts(ws))
  }

  /** All rows of one txid come from one `notify_tx` and move together: same state, all attributed or none. */
  predicate Homogeneous(rows: seq<TxRow>) {
    forall i, j :: 0 <= i < |rows| && 0 <= j < |rows| && rows[i].txid == rows[j].txid ==>
      rows[i].confirmed == rows[j].confirmed && rows[i].account.Some? == rows[j].account.Some?
  }

  /**
   * The schema's constraints (unique accounts and addresses, balance >= 0,
   * amount >= 0.1) and the ones the ledger operations keep (bound and
   * attributed accounts have a wallet row, well-formed homogeneous
   * notifications).
   */
  ghost predicate Valid(t: Tables) {
    && UniqueAccounts(t.wallets)
    && (forall i :: 0 <= i < |t.wallets| ==> t.wallets[i].balance >= 0)
    && UniqueAddresses(t.addresses)
    && (forall i :: 0 <= i < |t.addresses| ==> t.addresses[i].account in Accounts(t.wallets))
    && (forall i :: 0 <= i < |t.notified| ==> WellFormed(t.notified[i], t.wallets))
    && Homogeneous(t.notified)
    && (forall i :: 0 <= i < |t.withdrawals| ==> t.withdrawals[i].amount >= MinWithdrawal)
  }

  // ------------------------------------------------------------------- sums

  function ValueOr0(r: TxRow): int {
    if r.value.Some? then r.value.value else 0
  }

  /** The sum of the values of the rows attributed to account `a`. */
  function SumFor(rows: seq<TxRow>, a: string): int {
    if rows == [] then 0
    else SumFor(rows[..|rows| - 1], a) + (if rows[|rows| - 1].account == Some(a) then ValueOr0(rows[|rows| - 1]) else 0)
  }

  /** The sum of the values of the settled rows attributed to account `a`: what the ledger has credited to it. */
  function SettledFor(rows: seq<TxRow>, a: string): int {
    if rows == [] then 0
    else
      var r := rows[|rows| - 1];
      SettledFor(rows[..|rows| - 1], a) + (if r.confirmed == Settled && r.account == Some(a) then ValueOr0(r) else 0)
  }

  /** The sum of all values of `rows`. */
  function TotalValue(rows: seq<TxRow>): int {
    if rows == [] then 0 else TotalValue(rows[..|rows| - 1]) + ValueOr0(rows[|rows| - 1])
  }

  /** The sum of all balances. */
  function TotalBalance(ws: seq<WalletRow>): int {
    if ws == [] then 0 else TotalBalance(ws[..|ws| - 1]) + ws[|ws| - 1].balance
  }

  /**
   * Every account's balance is exactly what its settled deposits add up to:
   * each settled deposit was credited once, and nothing else was.
   */
  ghost predicate Reconciled(t: Tables) {
    forall i :: 0 <= i < |t.wallets| ==> t.wallets[i].balance == SettledFor(t.notified, t.wallets[i].account)
  }

  // ------------------------------------------------------------ sum lemmas

  lemma {:induction false} SettledForAppend(rows: seq<TxRow>, extra: seq<TxRow>, a: string)
    requires forall k :: 0 <= k < |extra| ==> extra[k].confirmed != Settled
    ensures SettledFor(rows + extra, a) == SettledFor(rows, a)
  {
    if extra != [] {
      var n := |extra| - 1;
      assert (rows + extra)[..|rows + extra| - 1] == rows + extra[..n];
      SettledForAppend(rows, extra[..n], a);
    } else {
      assert rows + extra == rows;
    }
  }

  lemma {:induction false} TotalBalanceUpdate(ws: seq<WalletRow>, k: nat, w: WalletRow)
    requires k < |ws|
    ensures TotalBalance(ws[k := w]) == TotalBalance(ws) - ws[k].balance + w.balance
  {
    var n := |ws| - 1;
    if k < n {
      assert ws[k := w][..n] == ws[..n][k := w];
      TotalBalanceUpdate(ws[..n], k, w);
    } else {
      assert ws[k := w][..n] == ws[..n];
    }
  }

}
