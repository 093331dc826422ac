/**
 * The operations of the deposit ledger (accountwallet.py) as functions from
 * the tables before a transaction to its outcome: the new tables and a
 * value, or the error that makes the transaction roll back.  The daemon's
 * answers (a new address, the decoded transaction, the confirmation count)
 * and the clock are parameters.
 */
module Ledger {
  import opened Wrappers
  import opened Tables

  /** The exceptions a ledger transaction can raise. */
  datatype Error =
    | UniqueViolation   // sqlite3.IntegrityError, UNIQUE constraint
    | NotNullViolation  // sqlite3.IntegrityError, NOT NULL constraint
    | CheckViolation    // sqlite3.IntegrityError, CHECK constraint
    | NoRow             // TypeError: `fetchone()` gave None and was subscripted
    | NullValue         // decimal.InvalidOperation: `Decimal(str(None))`
    | NotIterable       // TypeError: an output without an `addresses` list was iterated

  /** One output of a decoded transaction: its `scriptPubKey.addresses` (absent for some scripts) and its value. */
  datatype Output = Output(addresses: Option<seq<string>>, value: nat)

  const SecondsPerMinute: int := 60

  /** Pending rows older than ten times MINCONF minutes are neither counted as confirming nor swept. */
  function Cutoff(now: int, minConf: nat): int {
    now - SecondsPerMinute * minConf * 10
  }

  // ================================================================ wallets

  /** `insert or ignore into account_wallet(account) values(?)`: a new account starts at balance 0. */
  function EnsureWallet(ws: seq<WalletRow>, a: string): (r: seq<WalletRow>)
    ensures a in Accounts(r)
    ensures |ws| <= |r| <= |ws| + 1 && r[..|ws|] == ws
    ensures |r| == |ws| + 1 <==> a !in Accounts(ws)
    ensures |r| == |ws| + 1 ==> r[|ws|] == WalletRow(a, 0)
  {
    if a in Accounts(ws) then ws
    else
      var r := ws + [WalletRow(a, 0)];
      assert Accounts(r)[|ws|] == a;
      r
  }

  lemma EnsureWalletValid(ws: seq<WalletRow>, a: string)
    requires UniqueAccounts(ws)
    ensures UniqueAccounts(EnsureWallet(ws, a))
    ensures forall x :: x in Accounts(ws) ==> x in Accounts(EnsureWallet(ws, a))
  {
    var r := EnsureWallet(ws, a);
    forall x | x in Accounts(ws) ensures x in Accounts(r) {
      var i :| 0 <= i < |ws| && ws[i].account == x;
      assert r[i] == ws[i];
    }
  }

  /** The stored balance of an account known to have a wallet row. */
  function BalanceOf(ws: seq<WalletRow>, a: string): int
    requires a in Accounts(ws)
  {
    ws[WalletIndex(ws, a).value].balance
  }

  // ===================================================== address issuance

  /**
   * `get_new_account_address`: make sure the account has a wallet row, bind
   * the address the daemon issued to it and return that address.  A NULL
   * address breaks NOT NULL and an address already bound breaks UNIQUE;
   * either rolls the whole transaction back.
   */
  function NewAccountAddress(t: Tables, account: string, address: Option<string>): (r: Result<(Tables, string), Error>)
    ensures r.Success? <==> address.Some? && address.value !in BoundAddresses(t.addresses)
    ensures address.None? ==> r == Failure(NotNullViolation)
    ensures address.Some? && address.value in BoundAddresses(t.addresses) ==> r == Failure(UniqueViolation)
    ensures r.Success? ==>
              && r.value.1 == address.value
              && r.value.0.addresses == t.addresses + [AddressRow(account, address.value)]
              && account in Accounts(r.value.0.wallets)
              && |t.wallets| <= |r.value.0.wallets| <= |t.wallets| + 1
              && r.value.0.wallets[..|t.wallets|] == t.wallets
              && (forall i :: |t.wallets| <= i < |r.value.0.wallets| ==> r.value.0.wallets[i] == WalletRow(account, 0))
              && r.value.0.notified == t.notified
              && r.value.0.withdrawals == t.withdrawals
  {
    match address
    case None => Failure(NotNullViolation)
    case Some(x) =>
      if x in BoundAddresses(t.addresses) then Failure(UniqueViolation)
      else Success((t.(wallets := EnsureWallet(t.wallets, account),
                       addresses := t.addresses + [AddressRow(account, x)]), x))
  }

  /** `get_addresses_by_account`: the addresses bound to an account, in table order. */
  function AddressesOf(rows: seq<AddressRow>, account: string): (r: seq<string>)
    ensures |r| <= |rows|
    ensures forall x :: x in r <==> AddressRow(account, x) in rows
  {
    if rows == [] then []
    else
      var n := |rows| - 1;
      AddressesOf(rows[..n], account) + (if rows[n].account == account then [rows[n].address] else [])
  }

  /**
   * Issuing an address keeps the ledger valid and reconciled, leaves every
   * other account's bindings alone and adds exactly the new address to the
   * account's list.
   */
  lemma {:induction false} NewAccountAddressPreserves(t: Tables, account: string, address: Option<string>)
    requires Valid(t)
    requires NewAccountAddress(t, account, address).Success?
    ensures var t' := NewAccountAddress(t, account, address).value.0;
      && Valid(t')
      && (Reconciled(t) ==> Reconciled(t'))
      && AddressesOf(t'.addresses, account) == AddressesOf(t.addresses, account) + [address.value]
      && forall b :: b != account ==> AddressesOf(t'.addresses, b) == AddressesOf(t.addresses, b)
  {
    var t' := NewAccountAddress(t, account, address).value.0;
    var x := address.value;
    EnsureWalletValid(t.wallets, account);
    assert t'.addresses[..|t.addresses|] == t.addresses;
    forall i, j | 0 <= i < j < |t'.addresses| ensures t'.addresses[i].address != t'.addresses[j].address {
      if j == |t.addresses| {
        assert t.addresses[i].address in BoundAddresses(t.addresses);
      }
    }
    forall i | 0 <= i < |t'.notified| ensures WellFormed(t'.notified[i], t'.wallets) {
      assert WellFormed(t.notified[i], t.wallets);
    }
    if Reconciled(t) {
      forall i | 0 <= i < |t'.wallets| ensures t'.wallets[i].balance == SettledFor(t'.notified, t'.wallets[i].account) {
        if i == |t.wallets| {
          assert account !in Accounts(t.wallets);
          NoSettledWithoutWallet(t, account);
        } else {
          assert t'.wallets[i] == t.wallets[i];
        }
      }
    }
  }

  /** A valid ledger has credited nothing to an account without a wallet row. */
  lemma NoSettledWithoutWallet(t: Tables, a: string)
    requires Valid(t)
    requires a !in Accounts(t.wallets)
    ensures SettledFor(t.notified, a) == 0
  {
    NoSettledWithoutWalletRows(t.notified, t.wallets, a);
  }

  lemma {:induction false} NoSettledWithoutWalletRows(rows: seq<TxRow>, ws: seq<WalletRow>, a: string)
    requires forall i :: 0 <= i < |rows| ==> WellFormed(rows[i], ws)
    requires a !in Accounts(ws)
    ensures SettledFor(rows, a) == 0
  {
    if rows != [] {
      NoSettledWithoutWalletRows(rows[..|rows| - 1], ws, a);
      assert WellFormed(rows[|rows| - 1], ws);
    }
  }

  // ========================================================= balance query

  /** `account == ? and confirmed == 0 and time > ?`: a fresh pending deposit of `a`. */
  predicate IsConfirming(r: TxRow, a: string, cutoff: int) {
    r.account == Some(a) && r.confirmed == Pending && r.time > cutoff
  }

  /**
   * The confirming balance: the sum of the values of the fresh pending rows
   * of `a`; one such row with a NULL value makes `Decimal(str(None))` raise.
   */
  function ConfirmingSum(rows: seq<TxRow>, a: string, cutoff: int): (r: Result<int, Error>)
    ensures r.Success? <==> forall i :: 0 <= i < |rows| && IsConfirming(rows[i], a, cutoff) ==> rows[i].value.Some?
    ensures r.Failure? ==> r.error == NullValue
  {
    if rows == [] then Success(0)
    else
      var n := |rows| - 1;
      match ConfirmingSum(rows[..n], a, cutoff)
      case Failure(e) => Failure(e)
      case Success(s) =>
        if !IsConfirming(rows[n], a, cutoff) then Success(s)
        else if rows[n].value.None? then Failure(NullValue)
        else Success(s + rows[n].value.value)
  }

  /**
   * `get_account_balance`: make sure the account exists, then return its
   * stored balance and its confirming balance.  Nothing but the possible new
   * wallet row changes.
   */
  function AccountBalance(t: Tables, a: string, now: int, minConf: nat): (r: Result<(Tables, (int, int)), Error>)
    ensures r.Success? <==> ConfirmingSum(t.notified, a, Cutoff(now, minConf)).Success?
    ensures r.Success? ==>
              && a in Accounts(r.value.0.wallets)
              && r.value.0.wallets == EnsureWallet(t.wallets, a)
              && r.value.0.addresses == t.addresses
              && r.value.0.notified == t.notified
              && r.value.0.withdrawals == t.withdrawals
              && r.value.1.0 == (if a in Accounts(t.wallets) then BalanceOf(t.wallets, a) else 0)
              && r.value.1.1 == ConfirmingSum(t.notified, a, Cutoff(now, minConf)).value
  {
    var t' := t.(wallets := EnsureWallet(t.wallets, a));
    match ConfirmingSum(t.notified, a, Cutoff(now, minConf))
    case Failure(e) => Failure(e)
    case Success(c) => Success((t', (BalanceOf(t'.wallets, a), c)))
  }

  /**
   * On a valid ledger the balance query cannot fail, keeps the ledger valid
   * and reconciled, and reports as stored balance exactly what the
   * account's settled deposits add up to.
   */
  lemma AccountBalancePreserves(t: Tables, a: string, now: int, minConf: nat)
    requires Valid(t)
    ensures AccountBalance(t, a, now, minConf).Success?
    ensures var t' := AccountBalance(t, a, now, minConf).value.0;
      && Valid(t')
      && (Reconciled(t) ==> Reconciled(t') && AccountBalance(t, a, now, minConf).value.1.0 == SettledFor(t.notified, a))
  {
    forall i | 0 <= i < |t.notified| && IsConfirming(t.notified[i], a, Cutoff(now, minConf))
      ensures t.notified[i].value.Some?
    {
      assert WellFormed(t.notified[i], t.wallets);
    }
    var t' := AccountBalance(t, a, now, minConf).value.0;
    EnsureWalletValid(t.wallets, a);
    forall i | 0 <= i < |t'.notified| ensures WellFormed(t'.notified[i], t'.wallets) {
      assert WellFormed(t.notified[i], t.wallets);
    }
    if Reconciled(t) {
      if a !in Accounts(t.wallets) {
        NoSettledWithoutWallet(t, a);
      }
      forall i | 0 <= i < |t'.wallets| ensures t'.wallets[i].balance == SettledFor(t'.notified, t'.wallets[i].account) {
        if i == |t.wallets| {
          NoSettledWithoutWallet(t, a);
        } else {
          assert t'.wallets[i] == t.wallets[i];
        }
      }
    }
  }

  /**
   * Confirming and settled are disjoint parts of what has been attributed to
   * an account: together they never exceed the sum of its deposits.
   */
  lemma {:induction false} ConfirmingBounded(rows: seq<TxRow>, ws: seq<WalletRow>, a: string, cutoff: int)
    requires forall i :: 0 <= i < |rows| ==> WellFormed(rows[i], ws)
    ensures ConfirmingSum(rows, a, cutoff).Success?
    ensures 0 <= ConfirmingSum(rows, a, cutoff).value
    ensures SettledFor(rows, a) + ConfirmingSum(rows, a, cutoff).value <= SumFor(rows, a)
  {
    if rows != [] {
      var n := |rows| - 1;
      ConfirmingBounded(rows[..n], ws, a, cutoff);
      assert WellFormed(rows[n], ws);
    }
  }

  // ==================================================== deposit attribution

  /** The addresses among `addrs` that some account is bound to, in order. */
  function BoundAmong(rows: seq<AddressRow>, addrs: seq<string>): (r: seq<string>)
    ensures forall x :: x in r <==> x in addrs && x in BoundAddresses(rows)
  {
    if addrs == [] then []
    else
      var n := |addrs| - 1;
      BoundAmong(rows, addrs[..n]) + (if addrs[n] in BoundAddresses(rows) then [addrs[n]] else [])
  }

  /** The pending rows one output produces: one per address of it that is bound, carrying the output's value. */
  function OutputRows(rows: seq<AddressRow>, addrs: seq<string>, txid: string, now: int, value: nat): seq<TxRow>
  {
    if addrs == [] then []
    else
      var n := |addrs| - 1;
      OutputRows(rows, addrs[..n], txid, now, value) +
        (match AccountOf(rows, addrs[n])
         case None => []
         case Some(acc) => [TxRow(txid, now, Pending, Some(acc), Some(value))])
  }

  /** An output yields exactly one row per bound address, in order, each crediting that address's account. */
  lemma {:induction false} OutputRowsShape(rows: seq<AddressRow>, addrs: seq<string>, txid: string, now: int, value: nat)
    ensures var r := OutputRows(rows, addrs, txid, now, value);
      && |r| == |BoundAmong(rows, addrs)|
      && forall k :: 0 <= k < |r| ==>
           r[k] == TxRow(txid, now, Pending, AccountOf(rows, BoundAmong(rows, addrs)[k]), Some(value))
  {
    if addrs != [] {
      OutputRowsShape(rows, addrs[..|addrs| - 1], txid, now, value);
    }
  }

  /** The pending rows of all outputs, output by output; an output without an address list raises. */
  function Matches(rows: seq<AddressRow>, outs: seq<Output>, txid: string, now: int): (r: Result<seq<TxRow>, Error>)
    ensures r.Success? <==> forall k :: 0 <= k < |outs| ==> outs[k].addresses.Some?
    ensures r.Failure? ==> r.error == NotIterable
  {
    if outs == [] then Success([])
    else
      var n := |outs| - 1;
      match Matches(rows, outs[..n], txid, now)
      case Failure(e) => Failure(e)
      case Success(prefix) =>
        match outs[n].addresses
        case None => Failure(NotIterable)
        case Some(addrs) => Success(prefix + OutputRows(rows, addrs, txid, now, outs[n].value))
  }

  /** Matching one more output extends the rows of the outputs before it. */
  lemma MatchesStep(rows: seq<AddressRow>, outs: seq<Output>, i: nat, txid: string, now: int, prefix: seq<TxRow>, addrs: seq<string>)
    requires i < |outs|
    requires Matches(rows, outs[..i], txid, now) == Success(prefix)
    requires outs[i].addresses == Some(addrs)
    ensures Matches(rows, outs[..i + 1], txid, now) == Success(prefix + OutputRows(rows, addrs, txid, now, outs[i].value))
  {
    assert outs[..i + 1][..i] == outs[..i];
  }

  /** Every matched row is a pending deposit of the txid, to an account some address is bound to, with a value. */
  lemma {:induction false} MatchesShape(rows: seq<AddressRow>, outs: seq<Output>, txid: string, now: int)
    requires Matches(rows, outs, txid, now).Success?
    ensures var found := Matches(rows, outs, txid, now).value;
      forall k :: 0 <= k < |found| ==>
        && found[k].txid == txid && found[k].time == now && found[k].confirmed == Pending
        && found[k].account.Some? && found[k].account.value in BindingAccounts(rows)
        && found[k].value.Some? && found[k].value.value >= 0
  {
    if outs != [] {
      MatchesShape(rows, outs[..|outs| - 1], txid, now);
      OutputRowsShape(rows, outs[|outs| - 1].addresses.value, txid, now, outs[|outs| - 1].value);
    }
  }

  /** One output without an address list makes the whole match raise. */
  lemma MatchesFails(rows: seq<AddressRow>, outs: seq<Output>, i: nat, txid: string, now: int)
    requires i < |outs| && outs[i].addresses.None?
    ensures Matches(rows, outs, txid, now) == Failure(NotIterable)
  {
  }

  /** The rows one `notify_tx` call appends for a txid not yet recorded. */
  function NewTxRows(rows: seq<AddressRow>, txid: string, decoded: Option<seq<Output>>, now: int): (r: Result<seq<TxRow>, Error>)
    ensures decoded.None? ==> r == Success([TxRow(txid, now, Errored, None, None)])
    ensures r.Success? ==> |r.value| > 0 && forall k :: 0 <= k < |r.value| ==> r.value[k].txid == txid && r.value[k].time == now
  {
    match decoded
    case None => Success([TxRow(txid, now, Errored, None, None)])
    case Some(outs) =>
      match Matches(rows, outs, txid, now)
      case Failure(e) => Failure(e)
      case Success(found) =>
        MatchesShape(rows, outs, txid, now);
        if found == [] then Success([TxRow(txid, now, Unattributed, None, None)]) else Success(found)
  }

  /**
   * `notify_tx`: record a transaction the daemon reported.  A txid that
   * already has a row is left alone.  Otherwise an undecodable transaction
   * gets one errored row without account, a decoded one gets one pending row
   * per (output, bound address) pair, and one unattributed row if no address
   * of it is bound.  Balances are never touched.
   */
  function NotifyTx(t: Tables, txid: string, decoded: Option<seq<Output>>, now: int): (r: Result<Tables, Error>)
    ensures txid in Txids(t.notified) ==> r == Success(t)
    ensures r.Success? ==>
              && r.value.wallets == t.wallets
              && r.value.addresses == t.addresses
              && r.value.withdrawals == t.withdrawals
              && |t.notified| <= |r.value.notified|
              && r.value.notified[..|t.notified|] == t.notified
              && txid in Txids(r.value.notified)
    ensures txid !in Txids(t.notified) && r.Success? ==>
              forall k :: |t.notified| <= k < |r.value.notified| ==> r.value.notified[k].txid == txid
    ensures txid !in Txids(t.notified) && decoded.None? ==>
              r == Success(t.(notified := t.notified + [TxRow(txid, now, Errored, None, None)]))
    ensures txid !in Txids(t.notified) && decoded.Some? ==>
              match Matches(t.addresses, decoded.value, txid, now)
              case Failure(e) => r == Failure(e)
              case Success(found) =>
                && r.Success?
                && (found == [] ==> r.value.notified == t.notified + [TxRow(txid, now, Unattributed, None, None)])
                && (found != [] ==> r.value.notified == t.notified + found)
  {
    if txid in Txids(t.notified) then Success(t)
    else
      match NewTxRows(t.addresses, txid, decoded, now)
      case Failure(e) => Failure(e)
      case Success(rows) =>
        var t' := t.(notified := t.notified + rows);
        assert Txids(t'.notified)[|t.notified|] == txid;
        Success(t')
  }

  /** `notify_tx` is idempotent: once it has recorded a txid, calling it again for that txid changes nothing. */
  lemma NotifyTxIdempotent(t: Tables, txid: string, decoded: Option<seq<Output>>, now: int,
                           decoded': Option<seq<Output>>, now': int)
    requires NotifyTx(t, txid, decoded, now).Success?
    ensures var t' := NotifyTx(t, txid, decoded, now).value;
      NotifyTx(t', txid, decoded', now') == Success(t')
  {
  }

  /** Recording a transaction keeps the ledger valid and reconciled. */
  lemma NotifyTxPreserves(t: Tables, txid: string, decoded: Option<seq<Output>>, now: int)
    requires Valid(t)
    requires NotifyTx(t, txid, decoded, now).Success?
    ensures var t' := NotifyTx(t, txid, decoded, now).value;
      Valid(t') && (Reconciled(t) ==> Reconciled(t'))
  {
    if txid !in Txids(t.notified) {
      NewTxRowsWellFormed(t, txid, decoded, now);
      AppendTxPreserves(t, txid, NewTxRows(t.addresses, txid, decoded, now).value);
    }
  }

  /** The rows `notify_tx` writes are well-formed, not settled, and all alike. */
  lemma NewTxRowsWellFormed(t: Tables, txid: string, decoded: Option<seq<Output>>, now: int)
    requires Valid(t)
    requires NewTxRows(t.addresses, txid, decoded, now).Success?
    ensures var rows := NewTxRows(t.addresses, txid, decoded, now).value;
      && (forall k :: 0 <= k < |rows| ==> WellFormed(rows[k], t.wallets) && rows[k].confirmed != Settled)
      && Homogeneous(rows)
  {
    if decoded.Some? && Matches(t.addresses, decoded.value, txid, now).value != [] {
      MatchesShape(t.addresses, decoded.value, txid, now);
      MatchesWellFormed(t, Matches(t.addresses, decoded.value, txid, now).value);
    }
  }

  lemma MatchesWellFormed(t: Tables, rows: seq<TxRow>)
    requires Valid(t)
    requires forall k :: 0 <= k < |rows| ==>
               && rows[k].confirmed == Pending
               && rows[k].account.Some? && rows[k].account.value in BindingAccounts(t.addresses)
               && rows[k].value.Some? && rows[k].value.value >= 0
    ensures forall k :: 0 <= k < |rows| ==> WellFormed(rows[k], t.wallets) && rows[k].confirmed != Settled
    ensures Homogeneous(rows)
  {
    forall k | 0 <= k < |rows| ensures rows[k].account.value in Accounts(t.wallets) {
      var acc := rows[k].account.value;
      var j :| 0 <= j < |t.addresses| && t.addresses[j].account == acc;
    }
  }

  /** Appending a new txid's well-formed, unsettled, homogeneous rows keeps the ledger valid and reconciled. */
  lemma AppendTxPreserves(t: Tables, txid: string, rows: seq<TxRow>)
    requires Valid(t)
    requires txid !in Txids(t.notified)
    requires forall k :: 0 <= k < |rows| ==> rows[k].txid == txid
    requires forall k :: 0 <= k < |rows| ==> WellFormed(rows[k], t.wallets) && rows[k].confirmed != Settled
    requires Homogeneous(rows)
    ensures var t' := t.(notified := t.notified + rows);
      Valid(t') && (Reconciled(t) ==> Reconciled(t'))
  {
    var t' := t.(notified := t.notified + rows);
    var m := |t.notified|;
    forall i | 0 <= i < m ensures t.notified[i].txid != txid {
      assert t.notified[i].txid in Txids(t.notified);
    }
    forall i | 0 <= i < |t'.notified| ensures WellFormed(t'.notified[i], t'.wallets) {
      if i < m { assert t'.notified[i] == t.notified[i]; } else { assert t'.notified[i] == rows[i - m]; }
    }
    forall i, j | 0 <= i < |t'.notified| && 0 <= j < |t'.notified| && t'.notified[i].txid == t'.notified[j].txid
      ensures t'.notified[i].confirmed == t'.notified[j].confirmed
      ensures t'.notified[i].account.Some? == t'.notified[j].account.Some?
    {
      if i >= m && j >= m {
        assert t'.notified[i] == rows[i - m] && t'.notified[j] == rows[j - m];
      } else if i < m && j < m {
        assert t'.notified[i] == t.notified[i] && t'.notified[j] == t.notified[j];
      }
    }
    if Reconciled(t) {
      forall i | 0 <= i < |t'.wallets| ensures t'.wallets[i].balance == SettledFor(t'.notified, t'.wallets[i].account) {
        SettledForAppend(t.notified, rows, t.wallets[i].account);
      }
    }
  }

  // ===================================================== confirmation sweep

  /** `confirmed == 0 and time > ?`: a pending row within the freshness window. */
  predicate IsFresh(r: TxRow, cutoff: int) {
    r.confirmed == Pending && r.time > cutoff
  }

  predicate HasPending(rows: seq<TxRow>, txid: string) {
    exists k :: 0 <= k < |rows| && rows[k].txid == txid && rows[k].confirmed == Pending
  }

  /** `set([r[0] for r in ...])`: the distinct txids with a fresh pending row, in order of first appearance. */
  function PendingTxids(rows: seq<TxRow>, cutoff: int): (r: seq<string>)
    ensures forall i, j :: 0 <= i < j < |r| ==> r[i] != r[j]
    ensures forall x :: x in r <==> exists k :: 0 <= k < |rows| && rows[k].txid == x && IsFresh(rows[k], cutoff)
  {
    if rows == [] then []
    else
      var n := |rows| - 1;
      var p := PendingTxids(rows[..n], cutoff);
      if IsFresh(rows[n], cutoff) && rows[n].txid !in p then p + [rows[n].txid] else p
  }

  /** `update notified_tx set confirmed = ? where txid == ?` */
  function SetConfirmed(rows: seq<TxRow>, txid: string, c: int): (r: seq<TxRow>)
    ensures |r| == |rows|
    ensures forall i :: 0 <= i < |rows| ==>
              r[i] == if rows[i].txid == txid then rows[i].(confirmed := c) else rows[i]
  {
    if rows == [] then []
    else
      var n := |rows| - 1;
      SetConfirmed(rows[..n], txid, c) + [if rows[n].txid == txid then rows[n].(confirmed := c) else rows[n]]
  }

  /** `select account, value from notified_tx where txid == ?`: every row of the txid, whatever its state. */
  function RowsOf(rows: seq<TxRow>, txid: string): (r: seq<TxRow>)
    ensures |r| <= |rows|
    ensures forall k :: 0 <= k < |r| ==> r[k].txid == txid && r[k] in rows
  {
    if rows == [] then []
    else
      var n := |rows| - 1;
      RowsOf(rows[..n], txid) + (if rows[n].txid == txid then [rows[n]] else [])
  }

  /**
   * Credit one row to its account: a NULL account or an account without a
   * wallet row finds no balance, a NULL value cannot be converted, and a
   * negative result breaks `check(balance >= 0.0)`.
   */
  function Credit(ws: seq<WalletRow>, row: TxRow): (r: Result<seq<WalletRow>, Error>)
    ensures r.Success? ==> |r.value| == |ws| && Accounts(r.value) == Accounts(ws)
  {
    match row.account
    case None => Failure(NoRow)
    case Some(a) =>
      match WalletIndex(ws, a)
      case None => Failure(NoRow)
      case Some(k) =>
        match row.value
        case None => Failure(NullValue)
        case Some(v) =>
          if ws[k].balance + v < 0 then Failure(CheckViolation)
          else
            var ws' := ws[k := ws[k].(balance := ws[k].balance + v)];
            assert Accounts(ws') == Accounts(ws);
            Success(ws')
  }

  /** Credit the rows one after the other; the first failure aborts. */
  function CreditRows(ws: seq<WalletRow>, rows: seq<TxRow>): (r: Result<seq<WalletRow>, Error>)
  {
    if rows == [] then Success(ws)
    else
      match CreditRows(ws, rows[..|rows| - 1])
      case Failure(e) => Failure(e)
      case Success(ws') => Credit(ws', rows[|rows| - 1])
  }

  /**
   * One txid of `check_tx`.  No answer from the daemon marks every row of the
   * txid errored; fewer than MINCONF confirmations change nothing; enough
   * confirmations credit every row of the txid to its account and mark them
   * all settled.
   */
  function SettleTx(t: Tables, txid: string, conf: Option<int>, minConf: nat): (r: Result<Tables, Error>)
    ensures r.Success? ==> r.value.addresses == t.addresses && r.value.withdrawals == t.withdrawals
    ensures conf.None? ==>
              && r.Success?
              && r.value.wallets == t.wallets
              && |r.value.notified| == |t.notified|
              && forall i :: 0 <= i < |t.notified| ==>
                   r.value.notified[i] == if t.notified[i].txid == txid then t.notified[i].(confirmed := Errored) else t.notified[i]
    ensures conf.Some? && conf.value < minConf ==> r == Success(t)
    ensures conf.Some? && conf.value >= minConf && r.Success? ==>
              && CreditRows(t.wallets, RowsOf(t.notified, txid)) == Success(r.value.wallets)
              && |r.value.notified| == |t.notified|
              && forall i :: 0 <= i < |t.notified| ==>
                   r.value.notified[i] == if t.notified[i].txid == txid then t.notified[i].(confirmed := Settled) else t.notified[i]
  {
    match conf
    case None => Success(t.(notified := SetConfirmed(t.notified, txid, Errored)))
    case Some(c) =>
      if c < minConf then Success(t)
      else
        match CreditRows(t.wallets, RowsOf(t.notified, txid))
        case Failure(e) => Failure(e)
        case Success(ws) => Success(t.(wallets := ws, notified := SetConfirmed(t.notified, txid, Settled)))
  }

  /** The txids one after the other, each with the daemon's answer for it; the first failure aborts. */
  function SweepTxids(t: Tables, txids: seq<string>, lookup: string -> Option<int>, minConf: nat): (r: Result<Tables, Error>)
  {
    if txids == [] then Success(t)
    else
      match SweepTxids(t, txids[..|txids| - 1], lookup, minConf)
      case Failure(e) => Failure(e)
      case Success(t') => SettleTx(t', txids[|txids| - 1], lookup(txids[|txids| - 1]), minConf)
  }

  /** A failure while crediting a prefix of the rows is the failure of crediting them all. */
  lemma {:induction false} CreditRowsAbort(ws: seq<WalletRow>, rows: seq<TxRow>, j: nat)
    requires j <= |rows|
    requires CreditRows(ws, rows[..j]).Failure?
    ensures CreditRows(ws, rows) == CreditRows(ws, rows[..j])
  {
    if j < |rows| {
      var n := |rows| - 1;
      assert rows[..n][..j] == rows[..j];
      CreditRowsAbort(ws, rows[..n], j);
    } else {
      assert rows[..j] == rows;
    }
  }

  /** A failure while sweeping a prefix of the txids is the failure of the whole sweep. */
  lemma {:induction false} SweepAbort(t: Tables, txids: seq<string>, lookup: string -> Option<int>, minConf: nat, i: nat)
    requires i <= |txids|
    requires SweepTxids(t, txids[..i], lookup, minConf).Failure?
    ensures SweepTxids(t, txids, lookup, minConf) == SweepTxids(t, txids[..i], lookup, minConf)
  {
    if i < |txids| {
      var n := |txids| - 1;
      assert txids[..n][..i] == txids[..i];
      SweepAbort(t, txids[..n], lookup, minConf, i);
    } else {
      assert txids[..i] == txids;
    }
  }

  /** `check_tx`: sweep every distinct txid that has a fresh pending row. */
  function CheckTx(t: Tables, now: int, minConf: nat, lookup: string -> Option<int>): Result<Tables, Error> {
    SweepTxids(t, PendingTxids(t.notified, Cutoff(now, minConf)), lookup, minConf)
  }

  // ------------------------------------------------------- sweep lemmas

  /** The rows of a txid that are credited to `a` add up to what `a` gains. */
  predicate Creditable(rows: seq<TxRow>, ws: seq<WalletRow>) {
    forall k :: 0 <= k < |rows| ==>
      && rows[k].account.Some? && rows[k].account.value in Accounts(ws)
      && rows[k].value.Some? && rows[k].value.value >= 0
  }

  /** One credit: the row's account gains the row's value, every other account keeps its balance. */
  lemma CreditEffect(ws: seq<WalletRow>, row: TxRow)
    requires UniqueAccounts(ws)
    requires forall i :: 0 <= i < |ws| ==> ws[i].balance >= 0
    requires row.account.Some? && row.account.value in Accounts(ws)
    requires row.value.Some? && row.value.value >= 0
    ensures Credit(ws, row).Success?
    ensures var ws' := Credit(ws, row).value;
      && |ws'| == |ws|
      && Accounts(ws') == Accounts(ws)
      && (forall i :: 0 <= i < |ws| ==> ws'[i].account == ws[i].account && ws'[i].balance >= 0)
      && (forall i :: 0 <= i < |ws| ==>
            ws'[i].balance == ws[i].balance + (if row.account == Some(ws[i].account) then ValueOr0(row) else 0))
  {
    var a := row.account.value;
    var k := WalletIndex(ws, a).value;
    var v := row.value.value;
    var w := ws[k].(balance := ws[k].balance + v);
    assert Credit(ws, row) == Success(ws[k := w]);
    var ws' := ws[k := w];
    forall i | 0 <= i < |ws| ensures ws'[i].balance == ws[i].balance + (if row.account == Some(ws[i].account) then ValueOr0(row) else 0) {
      if i != k {
        assert ws[i].account != a;
      }
    }
  }

  /** One credit raises the total of balances by the row's value. */
  lemma CreditTotal(ws: seq<WalletRow>, row: TxRow)
    requires Credit(ws, row).Success?
    ensures TotalBalance(Credit(ws, row).value) == TotalBalance(ws) + ValueOr0(row)
  {
    var k := WalletIndex(ws, row.account.value).value;
    var w := ws[k].(balance := ws[k].balance + row.value.value);
    TotalBalanceUpdate(ws, k, w);
  }

  /**
   * Crediting attributed rows with non-negative values to accounts that
   * exist cannot fail; each account gains exactly the values of its rows,
   * so the total of balances grows by the sum of all the rows' values.
   */
  lemma {:induction false} CreditRowsEffect(ws: seq<WalletRow>, rows: seq<TxRow>)
    requires UniqueAccounts(ws)
    requires forall i :: 0 <= i < |ws| ==> ws[i].balance >= 0
    requires Creditable(rows, ws)
    ensures CreditRows(ws, rows).Success?
    ensures var ws' := CreditRows(ws, rows).value;
      && |ws'| == |ws|
      && Accounts(ws') == Accounts(ws)
      && (forall i :: 0 <= i < |ws| ==> ws'[i].account == ws[i].account && ws'[i].balance >= 0)
      && (forall i :: 0 <= i < |ws| ==> ws'[i].balance == ws[i].balance + SumFor(rows, ws[i].account))
      && TotalBalance(ws') == TotalBalance(ws) + TotalValue(rows)
  {
    if rows != [] {
      var n := |rows| - 1;
      assert Creditable(rows[..n], ws);
      CreditRowsEffect(ws, rows[..n]);
      var w1 := CreditRows(ws, rows[..n]).value;
      assert UniqueAccounts(w1) by {
        forall i, j | 0 <= i < j < |w1| ensures w1[i].account != w1[j].account {
          assert w1[i].account == ws[i].account && w1[j].account == ws[j].account;
        }
      }
      CreditEffect(w1, rows[n]);
      CreditTotal(w1, rows[n]);
    }
  }

  lemma {:induction false} SumForNonNegative(rows: seq<TxRow>, ws: seq<WalletRow>, a: string)
    requires Creditable(rows, ws)
    ensures SumFor(rows, a) >= 0
  {
    if rows != [] {
      assert Creditable(rows[..|rows| - 1], ws);
      SumForNonNegative(rows[..|rows| - 1], ws, a);
    }
  }

  /**
   * Marking the rows of a txid that none of which is settled: as settled adds
   * their values to each account's settled sum; as anything else changes no
   * settled sum.
   */
  lemma {:induction false} SetConfirmedSettledFor(rows: seq<TxRow>, txid: string, c: int, a: string)
    requires forall i :: 0 <= i < |rows| && rows[i].txid == txid ==> rows[i].confirmed != Settled
    ensures SettledFor(SetConfirmed(rows, txid, c), a) ==
            SettledFor(rows, a) + (if c == Settled then SumFor(RowsOf(rows, txid), a) else 0)
  {
    if rows != [] {
      var n := |rows| - 1;
      SetConfirmedSettledFor(rows[..n], txid, c, a);
      var s := SetConfirmed(rows, txid, c);
      assert s[..n] == SetConfirmed(rows[..n], txid, c);
      var p := RowsOf(rows[..n], txid);
      if rows[n].txid == txid {
        assert RowsOf(rows, txid) == p + [rows[n]];
        assert (p + [rows[n]])[..|p|] == p;
      } else {
        assert RowsOf(rows, txid) == p;
      }
    }
  }

  /** On a valid ledger every row of a txid that has a pending row is pending too, and attributed. */
  lemma AllRowsPending(t: Tables, txid: string)
    requires Valid(t)
    requires HasPending(t.notified, txid)
    ensures forall i :: 0 <= i < |t.notified| && t.notified[i].txid == txid ==>
              && t.notified[i].confirmed == Pending
              && t.notified[i].account.Some? && t.notified[i].account.value in Accounts(t.wallets)
              && t.notified[i].value.Some? && t.notified[i].value.value >= 0
  {
    var k :| 0 <= k < |t.notified| && t.notified[k].txid == txid && t.notified[k].confirmed == Pending;
    forall i | 0 <= i < |t.notified| && t.notified[i].txid == txid
      ensures t.notified[i].confirmed == Pending && t.notified[i].account.Some?
    {
      assert WellFormed(t.notified[k], t.wallets);
    }
    forall i | 0 <= i < |t.notified| ensures WellFormed(t.notified[i], t.wallets) {}
  }

  /** Two rows that differ at most in their state. */
  predicate SameDeposit(r: TxRow, r': TxRow) {
    r.txid == r'.txid && r.time == r'.time && r.account == r'.account && r.value == r'.value
  }

  /**
   * Marking the rows of a txid with pending rows errored or settled, and
   * replacing the wallets by ones with the same accounts and non-negative
   * balances, keeps the ledger valid.
   */
  lemma MarkPreserves(t: Tables, txid: string, c: int, ws: seq<WalletRow>)
    requires Valid(t)
    requires HasPending(t.notified, txid)
    requires c == Errored || c == Settled
    requires |ws| == |t.wallets|
    requires forall i :: 0 <= i < |ws| ==> ws[i].account == t.wallets[i].account && ws[i].balance >= 0
    ensures Valid(t.(wallets := ws, notified := SetConfirmed(t.notified, txid, c)))
  {
    AllRowsPending(t, txid);
    var t' := t.(wallets := ws, notified := SetConfirmed(t.notified, txid, c));
    assert Accounts(ws) == Accounts(t.wallets);
    assert UniqueAccounts(ws) by {
      forall i, j | 0 <= i < j < |ws| ensures ws[i].account != ws[j].account {
        assert ws[i].account == t.wallets[i].account && ws[j].account == t.wallets[j].account;
      }
    }
    forall i | 0 <= i < |t'.notified| ensures WellFormed(t'.notified[i], t'.wallets) {
      assert WellFormed(t.notified[i], t.wallets);
    }
    forall i, j | 0 <= i < |t'.notified| && 0 <= j < |t'.notified| && t'.notified[i].txid == t'.notified[j].txid
      ensures t'.notified[i].confirmed == t'.notified[j].confirmed
      ensures t'.notified[i].account.Some? == t'.notified[j].account.Some?
    {
      assert t.notified[i].txid == t.notified[j].txid;
    }
  }

  /**
   * No answer for a txid with pending rows marks them all errored: the
   * ledger stays valid and reconciled and no balance changes.
   */
  lemma SettleErroredPreserves(t: Tables, txid: string, minConf: nat)
    requires Valid(t)
    requires HasPending(t.notified, txid)
    ensures var t' := SettleTx(t, txid, None, minConf).value;
      && Valid(t')
      && (Reconciled(t) ==> Reconciled(t'))
  {
    AllRowsPending(t, txid);
    MarkPreserves(t, txid, Errored, t.wallets);
    var t' := SettleTx(t, txid, None, minConf).value;
    if Reconciled(t) {
      forall i | 0 <= i < |t'.wallets| ensures t'.wallets[i].balance == SettledFor(t'.notified, t'.wallets[i].account) {
        SetConfirmedSettledFor(t.notified, txid, Errored, t.wallets[i].account);
      }
    }
  }

  /**
   * Enough confirmations for a txid with pending rows: crediting cannot
   * fail; every account gains exactly the values of the txid's rows
   * attributed to it, which from then on count as settled, so the ledger
   * stays valid and reconciled; the total of balances rises by the txid's
   * total value.
   */
  lemma SettleCreditPreserves(t: Tables, txid: string, c: int, minConf: nat)
    requires Valid(t)
    requires HasPending(t.notified, txid)
    requires c >= minConf
    ensures SettleTx(t, txid, Some(c), minConf).Success?
    ensures var t' := SettleTx(t, txid, Some(c), minConf).value;
      && Valid(t')
      && (Reconciled(t) ==> Reconciled(t'))
      && Accounts(t'.wallets) == Accounts(t.wallets)
      && (forall i :: 0 <= i < |t.wallets| ==>
            t'.wallets[i].balance == t.wallets[i].balance + SumFor(RowsOf(t.notified, txid), t.wallets[i].account))
      && TotalBalance(t'.wallets) == TotalBalance(t.wallets) + TotalValue(RowsOf(t.notified, txid))
  {
    AllRowsPending(t, txid);
    var rows := RowsOf(t.notified, txid);
    forall k | 0 <= k < |rows|
      ensures rows[k].account.Some? && rows[k].account.value in Accounts(t.wallets)
      ensures rows[k].value.Some? && rows[k].value.value >= 0
    {
      var i :| 0 <= i < |t.notified| && t.notified[i] == rows[k];
    }
    CreditRowsEffect(t.wallets, rows);
    var ws := CreditRows(t.wallets, rows).value;
    MarkPreserves(t, txid, Settled, ws);
    var t' := SettleTx(t, txid, Some(c), minConf).value;
    assert t' == t.(wallets := ws, notified := SetConfirmed(t.notified, txid, Settled));
    if Reconciled(t) {
      forall i | 0 <= i < |t'.wallets| ensures t'.wallets[i].balance == SettledFor(t'.notified, t'.wallets[i].account) {
        SetConfirmedSettledFor(t.notified, txid, Settled, t.wallets[i].account);
      }
    }
  }

  /** `conf` counts as enough confirmations. */
  predicate Confirmed(conf: Option<int>, minConf: nat) {
    conf.Some? && conf.value >= minConf
  }

  /** One txid with pending rows: never fails and keeps the ledger valid and reconciled. */
  lemma SettleTxPreserves(t: Tables, txid: string, conf: Option<int>, minConf: nat)
    requires Valid(t)
    requires HasPending(t.notified, txid)
    ensures SettleTx(t, txid, conf, minConf).Success?
    ensures var t' := SettleTx(t, txid, conf, minConf).value;
      && Valid(t')
      && (Reconciled(t) ==> Reconciled(t'))
      && Accounts(t'.wallets) == Accounts(t.wallets)
  {
    match conf
    case None => SettleErroredPreserves(t, txid, minConf);
    case Some(c) =>
      if c >= minConf {
        SettleCreditPreserves(t, txid, c, minConf);
      }
  }

  /** What a successful sweep changes in notified_tx: only the state, and only of rows of the swept txids. */
  lemma {:induction false} SweepFrame(t: Tables, txids: seq<string>, lookup: string -> Option<int>, minConf: nat)
    requires SweepTxids(t, txids, lookup, minConf).Success?
    ensures var t' := SweepTxids(t, txids, lookup, minConf).value;
      && t'.addresses == t.addresses
      && |t'.notified| == |t.notified|
      && (forall i :: 0 <= i < |t.notified| ==> SameDeposit(t'.notified[i], t.notified[i]))
      && (forall i :: 0 <= i < |t.notified| && t.notified[i].txid !in txids ==> t'.notified[i] == t.notified[i])
  {
    if txids != [] {
      var init := txids[..|txids| - 1];
      assert forall y :: y in init ==> y in txids;
      SweepFrame(t, init, lookup, minConf);
    }
  }

  /** After a successful sweep of distinct txids, the rows of every txid the daemon confirmed are settled. */
  lemma {:induction false} SweepSettles(t: Tables, txids: seq<string>, lookup: string -> Option<int>, minConf: nat)
    requires forall i, j :: 0 <= i < j < |txids| ==> txids[i] != txids[j]
    requires SweepTxids(t, txids, lookup, minConf).Success?
    ensures var t' := SweepTxids(t, txids, lookup, minConf).value;
      && |t'.notified| == |t.notified|
      && (forall i :: 0 <= i < |t.notified| && t.notified[i].txid in txids && Confirmed(lookup(t.notified[i].txid), minConf) ==>
            t'.notified[i].confirmed == Settled)
  {
    SweepFrame(t, txids, lookup, minConf);
    if txids != [] {
      var n := |txids| - 1;
      var x := txids[n];
      var init := txids[..n];
      assert x !in init;
      SweepSettles(t, init, lookup, minConf);
      var t' := SweepTxids(t, txids, lookup, minConf).value;
      forall i | 0 <= i < |t.notified| && t.notified[i].txid in txids && Confirmed(lookup(t.notified[i].txid), minConf)
        ensures t'.notified[i].confirmed == Settled
      {
        if t.notified[i].txid != x {
          assert t.notified[i].txid in init;
        }
      }
    }
  }

  /** Sweeping distinct txids that all have pending rows: never fails, keeps the ledger valid and reconciled. */
  lemma {:induction false} SweepPreserves(t: Tables, txids: seq<string>, lookup: string -> Option<int>, minConf: nat)
    requires Valid(t)
    requires forall i, j :: 0 <= i < j < |txids| ==> txids[i] != txids[j]
    requires forall x :: x in txids ==> HasPending(t.notified, x)
    ensures SweepTxids(t, txids, lookup, minConf).Success?
    ensures var t' := SweepTxids(t, txids, lookup, minConf).value;
      Valid(t') && (Reconciled(t) ==> Reconciled(t'))
  {
    if txids != [] {
      var n := |txids| - 1;
      var x := txids[n];
      var init := txids[..n];
      assert forall y :: y in init ==> y in txids;
      assert x !in init;
      SweepPreserves(t, init, lookup, minConf);
      SweepFrame(t, init, lookup, minConf);
      var tm := SweepTxids(t, init, lookup, minConf).value;
      assert HasPending(t.notified, x);
      assert HasPending(tm.notified, x) by {
        var k :| 0 <= k < |t.notified| && t.notified[k].txid == x && t.notified[k].confirmed == Pending;
        assert tm.notified[k] == t.notified[k];
      }
      SettleTxPreserves(tm, x, lookup(x), minConf);
    }
  }

  /**
   * `check_tx` on a valid ledger never fails and keeps the ledger valid and
   * reconciled.  Only rows of the txids it selects can change, and only in
   * their state; in particular a settled row is never touched again, so no
   * deposit is credited twice.
   */
  lemma CheckTxPreserves(t: Tables, now: int, minConf: nat, lookup: string -> Option<int>)
    requires Valid(t)
    ensures CheckTx(t, now, minConf, lookup).Success?
    ensures var t' := CheckTx(t, now, minConf, lookup).value;
      && Valid(t')
      && (Reconciled(t) ==> Reconciled(t'))
      && |t'.notified| == |t.notified|
      && (forall i :: 0 <= i < |t.notified| ==> SameDeposit(t'.notified[i], t.notified[i]))
      && (forall i :: 0 <= i < |t.notified| && t.notified[i].txid !in PendingTxids(t.notified, Cutoff(now, minConf)) ==>
            t'.notified[i] == t.notified[i])
      && (forall i :: 0 <= i < |t.notified| && t.notified[i].confirmed == Settled ==> t'.notified[i] == t.notified[i])
  {
    var ids := PendingTxids(t.notified, Cutoff(now, minConf));
    forall x | x in ids ensures HasPending(t.notified, x) {
      var k :| 0 <= k < |t.notified| && t.notified[k].txid == x && IsFresh(t.notified[k], Cutoff(now, minConf));
    }
    SweepPreserves(t, ids, lookup, minConf);
    SweepFrame(t, ids, lookup, minConf);
    forall i, k | 0 <= i < |t.notified| && 0 <= k < |t.notified| && t.notified[i].confirmed == Settled && IsFresh(t.notified[k], Cutoff(now, minConf))
      ensures t.notified[i].txid != t.notified[k].txid
    {
    }
  }

  /**
   * Exactly-once settlement: when the daemon confirms every txid a sweep
   * selects, a later sweep finds nothing left to do and changes nothing.
   */
  lemma CheckTxSettlesOnce(t: Tables, now: int, minConf: nat, lookup: string -> Option<int>,
                           now': int, lookup': string -> Option<int>)
    requires Valid(t)
    requires forall x :: x in PendingTxids(t.notified, Cutoff(now, minConf)) ==> Confirmed(lookup(x), minConf)
    requires now <= now'
    ensures CheckTx(t, now, minConf, lookup).Success?
    ensures var t' := CheckTx(t, now, minConf, lookup).value;
      && PendingTxids(t'.notified, Cutoff(now', minConf)) == []
      && CheckTx(t', now', minConf, lookup') == Success(t')
  {
    var cutoff := Cutoff(now, minConf);
    var ids := PendingTxids(t.notified, cutoff);
    CheckTxSucceeds(t, now, minConf, lookup);
    SweepFrame(t, ids, lookup, minConf);
    SweepSettles(t, ids, lookup, minConf);
    var t' := CheckTx(t, now, minConf, lookup).value;
    forall k | 0 <= k < |t'.notified| ensures !IsFresh(t'.notified[k], Cutoff(now', minConf)) {
      if t.notified[k].txid !in ids {
        assert !IsFresh(t.notified[k], cutoff);
      }
    }
    NoFreshNoPending(t'.notified, Cutoff(now', minConf));
  }

  lemma {:induction false} NoFreshNoPending(rows: seq<TxRow>, cutoff: int)
    requires forall k :: 0 <= k < |rows| ==> !IsFresh(rows[k], cutoff)
    ensures PendingTxids(rows, cutoff) == []
  {
    if rows != [] {
      NoFreshNoPending(rows[..|rows| - 1], cutoff);
    }
  }

  lemma CheckTxSucceeds(t: Tables, now: int, minConf: nat, lookup: string -> Option<int>)
    requires Valid(t)
    ensures CheckTx(t, now, minConf, lookup).Success?
  {
    CheckTxPreserves(t, now, minConf, lookup);
  }
}