/**
 * The ledger store of accountwallet.py as an object: the four tables are
 * fields that the operations change in place.  Each method is one attempt
 * of a decorated function: it works on the fields row by row, as the
 * source does, and when the attempt raises it puts the fields back (the
 * rollback).  Each is proved to do what the matching function of module
 * Ledger describes, and to keep the ledger valid and reconciled.
 */
module AccountWallet {
  import opened Wrappers
  import opened Tables
  import opened Ledger
  import SqlTx
  import Schema = Tables

  /** A unit of work that, from a valid ledger, can only commit a valid ledger. */
  ghost predicate PreservesValid<R>(op: (nat, Tables) -> Result<(Tables, R), Error>) {
    forall k: nat, t: Tables :: Valid(t) && op(k, t).Success? ==> Valid(op(k, t).value.0)
  }

  /** A ledger transition that returns nothing, as a unit of work. */
  function Unit(r: Result<Tables, Error>): (o: Result<(Tables, ()), Error>)
    ensures o.Success? <==> r.Success?
    ensures r.Success? ==> o.value.0 == r.value
    ensures r.Failure? ==> o.error == r.error
  {
    match r
    case Success(t) => Success((t, ()))
    case Failure(e) => Failure(e)
  }

  /** `get_new_account_address` under the decorator: each attempt asks the daemon again. */
  lemma NewAccountAddressUnitOfWork(account: string, address: nat -> Option<string>)
    ensures PreservesValid((k: nat, t: Tables) => NewAccountAddress(t, account, address(k)))
  {
    forall k: nat, t: Tables | Valid(t) && NewAccountAddress(t, account, address(k)).Success?
      ensures Valid(NewAccountAddress(t, account, address(k)).value.0)
    {
      NewAccountAddressPreserves(t, account, address(k));
    }
  }

  /** `notify_tx` under the decorator: each attempt decodes and reads the clock again. */
  lemma NotifyTxUnitOfWork(txid: string, decoded: nat -> Option<seq<Output>>, now: nat -> int)
    ensures PreservesValid((k: nat, t: Tables) => Unit(Ledger.NotifyTx(t, txid, decoded(k), now(k))))
  {
    forall k: nat, t: Tables | Valid(t) && Unit(Ledger.NotifyTx(t, txid, decoded(k), now(k))).Success?
      ensures Valid(Unit(Ledger.NotifyTx(t, txid, decoded(k), now(k))).value.0)
    {
      NotifyTxPreserves(t, txid, decoded(k), now(k));
    }
  }

  /** `check_tx` under the decorator: each attempt reads the clock and asks the daemon again. */
  lemma CheckTxUnitOfWork(now: nat -> int, minConf: nat, lookup: nat -> (string -> Option<int>))
    ensures PreservesValid((k: nat, t: Tables) => Unit(Ledger.CheckTx(t, now(k), minConf, lookup(k))))
  {
    forall k: nat, t: Tables | Valid(t) && Unit(Ledger.CheckTx(t, now(k), minConf, lookup(k))).Success?
      ensures Valid(Unit(Ledger.CheckTx(t, now(k), minConf, lookup(k))).value.0)
    {
      CheckTxPreserves(t, now(k), minConf, lookup(k));
    }
  }

  class Wallet {
    var wallets: seq<WalletRow>
    var addresses: seq<AddressRow>
    var notified: seq<TxRow>
    var withdrawals: seq<WithdrawalRow>

    /** MINCONF of the configuration. */
    const minConf: nat

    function Contents(): Tables
      reads this
    {
      Tables(wallets, addresses, notified, withdrawals)
    }

    ghost predicate Valid()
      reads this
    {
      Schema.Valid(Contents())
    }

    /** `init_db`: four empty tables. */
    constructor InitDb(minConf: nat)
      ensures Valid() && Reconciled(Contents())
      ensures Contents() == Empty && this.minConf == minConf
    {
      wallets, addresses, notified, withdrawals := [], [], [], [];
      this.minConf := minConf;
    }

    /**
     * `sql_decorator`: run `op` at most five times; a failed attempt is
     * rolled back, so the next one starts from the same tables; the first
     * success is committed and its value returned; after five failures the
     * last error is returned and the tables are as before.
     */
    method Transact<R>(op: (nat, Tables) -> Result<(Tables, R), Error>) returns (r: Result<R, Error>)
      requires Valid()
      requires PreservesValid(op)
      modifies this
      ensures Valid()
      ensures var o := SqlTx.Retry(op, old(Contents()));
        && Contents() == SqlTx.StateAfter(o, old(Contents()))
        && r == (if o.Committed? then Success(o.value) else Failure(o.error))
    {
      ghost var s := Contents();
      var e: Error := NoRow;
      for i := 0 to SqlTx.MaxAttempts
        invariant Contents() == s
        invariant forall k :: 0 <= k < i ==> op(k, s).Failure?
        invariant i > 0 ==> e == op(i - 1, s).error
      {
        match op(i, Contents())
        case Failure(err) =>
          e := err;
        case Success(sr) =>
          wallets, addresses, notified, withdrawals := sr.0.wallets, sr.0.addresses, sr.0.notified, sr.0.withdrawals;
          ghost var o := SqlTx.Retry(op, s);
          assert op(i, s).Success?;
          assert o.Committed? && o.attempt == i;
          return Success(sr.1);
      }
      r := Failure(e);
    }

    /**
     * `get_new_account_address`, with the address the daemon issued: the
     * account gets a wallet row if it had none, the address is bound to it
     * and returned; a NULL or already-bound address rolls back.
     */
    method GetNewAccountAddress(account: string, address: Option<string>) returns (r: Result<string, Error>)
      requires Valid()
      modifies this`wallets, this`addresses
      ensures Valid()
      ensures Reconciled(old(Contents())) ==> Reconciled(Contents())
      ensures match NewAccountAddress(old(Contents()), account, address)
        case Success(ta) => Contents() == ta.0 && r == Success(ta.1)
        case Failure(e) => Contents() == old(Contents()) && r == Failure(e)
    {
      var before := wallets;
      wallets := EnsureWallet(wallets, account);
      match address
      case None =>
        wallets := before;
        return Failure(NotNullViolation);
      case Some(x) =>
        if x in BoundAddresses(addresses) {
          wallets := before;
          return Failure(UniqueViolation);
        }
        addresses := addresses + [AddressRow(account, x)];
        r := Success(x);
        NewAccountAddressPreserves(old(Contents()), account, address);
    }

    /** `get_addresses_by_account`: the addresses bound to the account, in table order; nothing changes. */
    method GetAddressesByAccount(account: string) returns (addrs: seq<string>)
      ensures addrs == AddressesOf(addresses, account)
      ensures forall x :: x in addrs <==> AddressRow(account, x) in addresses
    {
      addrs := [];
      for i := 0 to |addresses|
        invariant addrs == AddressesOf(addresses[..i], account)
      {
        assert addresses[..i + 1][..i] == addresses[..i];
        if addresses[i].account == account {
          addrs := addrs + [addresses[i].address];
        }
      }
      assert addresses[..|addresses|] == addresses;
    }

    /**
     * `get_account_balance`: make sure the account exists, read its balance,
     * and add up the values of its fresh pending deposits.  A deposit whose
     * value is NULL makes the query raise; on a valid ledger that cannot
     * happen.
     */
    method GetAccountBalance(account: string, now: int) returns (r: Result<(int, int), Error>)
      modifies this`wallets
      ensures match AccountBalance(old(Contents()), account, now, minConf)
        case Success(tb) => Contents() == tb.0 && r == Success(tb.1)
        case Failure(e) => Contents() == old(Contents()) && r == Failure(e)
      ensures old(Valid()) ==> Valid() && r.Success?
      ensures old(Valid() && Reconciled(Contents())) ==> Reconciled(Contents()) && r.value.0 == SettledFor(notified, account)
    {
      if Valid() {
        AccountBalancePreserves(Contents(), account, now, minConf);
      }
      var before := wallets;
      wallets := EnsureWallet(wallets, account);
      var balance := BalanceOf(wallets, account);
      var confirming := SumConfirming(account, Cutoff(now, minConf));
      if confirming.Failure? {
        wallets := before;
        return Failure(confirming.error);
      }
      r := Success((balance, confirming.value));
    }

    /**
     * `get_account_balance`'s loop: the values of the account's pending rows
     * newer than the cutoff, added up in table order; a NULL value cannot be
     * converted and raises.
     */
    method SumConfirming(account: string, cutoff: int) returns (r: Result<int, Error>)
      ensures r == ConfirmingSum(notified, account, cutoff)
    {
      var confirming := 0;
      for i := 0 to |notified|
        invariant ConfirmingSum(notified[..i], account, cutoff) == Success(confirming)
      {
        assert notified[..i + 1][..i] == notified[..i];
        var row := notified[i];
        if IsConfirming(row, account, cutoff) {
          if row.value.None? {
            assert ConfirmingSum(notified, account, cutoff).Failure?;
            return Failure(NullValue);
          }
          confirming := confirming + row.value.value;
        }
      }
      assert notified[..|notified|] == notified;
      r := Success(confirming);
    }

    /**
     * `notify_tx`, with the daemon's decoding of the transaction (None when
     * it could not be fetched or decoded): a txid already recorded is left
     * alone; otherwise one row is appended per (output, bound address)
     * pair, an errored row when there was nothing to decode, and an
     * unattributed row when no address was bound.
     */
    method NotifyTx(txid: string, decoded: Option<seq<Output>>, now: int) returns (r: Result<(), Error>)
      requires Valid()
      modifies this`notified
      ensures Valid()
      ensures Reconciled(old(Contents())) ==> Reconciled(Contents())
      ensures match Ledger.NotifyTx(old(Contents()), txid, decoded, now)
        case Success(t) => Contents() == t && r == Success(())
        case Failure(e) => Contents() == old(Contents()) && r == Failure(e)
    {
      if Ledger.NotifyTx(Contents(), txid, decoded, now).Success? {
        NotifyTxPreserves(Contents(), txid, decoded, now);
      }
      if txid in Txids(notified) {
        return Success(());
      }
      match decoded
      case None =>
        notified := notified + [TxRow(txid, now, Errored, None, None)];
        r := Success(());
        assert Contents() == Ledger.NotifyTx(old(Contents()), txid, decoded, now).value;
      case Some(outs) =>
        var before := notified;
        var e, accountFound := AppendMatches(txid, outs, now);
        if e.Some? {
          notified := before;
          assert Contents() == old(Contents());
          return Failure(e.value);
        }
        if !accountFound {
          notified := notified + [TxRow(txid, now, Unattributed, None, None)];
        }
        r := Success(());
        assert Contents() == Ledger.NotifyTx(old(Contents()), txid, decoded, now).value;
    }

    /**
     * `notify_tx`'s loop over the outputs: append the rows of each output,
     * and tell whether any was appended.  An output without an address list
     * raises, and the caller rolls back the rows appended so far.
     */
    method AppendMatches(txid: string, outs: seq<Output>, now: int) returns (e: Option<Error>, accountFound: bool)
      modifies this`notified
      ensures e.Some? <==> Matches(addresses, outs, txid, now).Failure?
      ensures e.Some? ==> e.value == Matches(addresses, outs, txid, now).error
      ensures e.None? ==> notified == old(notified) + Matches(addresses, outs, txid, now).value
      ensures e.None? ==> (accountFound <==> |notified| > |old(notified)|)
    {
      ghost var found := [];
      accountFound := false;
      for i := 0 to |outs|
        invariant Matches(addresses, outs[..i], txid, now) == Success(found)
        invariant notified == old(notified) + found
        invariant accountFound <==> |found| > 0
      {
        var any;
        ghost var more;
        e, any, more := AppendOutput(txid, outs, i, now, found);
        if e.Some? {
          return;
        }
        accountFound := accountFound || any;
        found := found + more;
      }
      assert outs[..|outs|] == outs;
      e := None;
    }

    /** One turn of `notify_tx`'s loop over the outputs: the rows of output `i`, or the error its missing address list raises. */
    method AppendOutput(txid: string, outs: seq<Output>, i: nat, now: int, ghost found: seq<TxRow>)
      returns (e: Option<Error>, any: bool, ghost more: seq<TxRow>)
      requires i < |outs|
      requires Matches(addresses, outs[..i], txid, now) == Success(found)
      modifies this`notified
      ensures e.Some? ==> Matches(addresses, outs, txid, now) == Failure(e.value)
      ensures e.None? ==>
                && Matches(addresses, outs[..i + 1], txid, now) == Success(found + more)
                && notified == old(notified) + more
                && (any <==> |more| > 0)
    {
      match outs[i].addresses
      case None =>
        MatchesFails(addresses, outs, i, txid, now);
        return Some(NotIterable), false, [];
      case Some(addrs) =>
        more := OutputRows(addresses, addrs, txid, now, outs[i].value);
        any := AppendOutputRows(txid, addrs, now, outs[i].value);
        MatchesStep(addresses, outs, i, txid, now, found, addrs);
        e := None;
    }

    /** `notify_tx`'s loop over one output's addresses: a pending row for each address bound to an account. */
    method AppendOutputRows(txid: string, addrs: seq<string>, now: int, value: nat) returns (any: bool)
      modifies this`notified
      ensures notified == old(notified) + OutputRows(addresses, addrs, txid, now, value)
      ensures any <==> |notified| > |old(notified)|
    {
      any := false;
      for j := 0 to |addrs|
        invariant notified == old(notified) + OutputRows(addresses, addrs[..j], txid, now, value)
        invariant any <==> |notified| > |old(notified)|
      {
        assert addrs[..j + 1][..j] == addrs[..j];
        var account := AccountOf(addresses, addrs[j]);
        if account.None? {
          continue;
        }
        any := true;
        notified := notified + [TxRow(txid, now, Pending, account, Some(value))];
      }
      assert addrs[..|addrs|] == addrs;
    }

    /**
     * `check_tx`, with the daemon's confirmation count per txid (None when
     * it does not know the transaction): every distinct txid with a fresh
     * pending row is either marked errored, left for later, or credited row
     * by row to its accounts and marked settled.  Any error rolls the whole
     * sweep back; on a valid ledger none can occur.
     */
    method CheckTx(now: int, lookup: string -> Option<int>) returns (r: Result<(), Error>)
      modifies this`wallets, this`notified
      ensures match Ledger.CheckTx(old(Contents()), now, minConf, lookup)
        case Success(t) => Contents() == t && r == Success(())
        case Failure(e) => Contents() == old(Contents()) && r == Failure(e)
      ensures old(Valid()) ==> Valid() && r.Success?
      ensures old(Valid() && Reconciled(Contents())) ==> Reconciled(Contents())
    {
      if Valid() {
        CheckTxPreserves(Contents(), now, minConf, lookup);
      }
      var txids := PendingTxids(notified, Cutoff(now, minConf));
      if |txids| == 0 {
        return Success(());
      }
      r := Sweep(txids, lookup);
    }

    /** `check_tx`'s loop over the selected txids; the first error rolls back every txid already handled. */
    method Sweep(txids: seq<string>, lookup: string -> Option<int>) returns (r: Result<(), Error>)
      modifies this`wallets, this`notified
      ensures match SweepTxids(old(Contents()), txids, lookup, minConf)
        case Success(t) => Contents() == t && r == Success(())
        case Failure(e) => Contents() == old(Contents()) && r == Failure(e)
    {
      ghost var t0 := Contents();
      var savedWallets, savedNotified := wallets, notified;
      for i := 0 to |txids|
        invariant SweepTxids(t0, txids[..i], lookup, minConf) == Success(Contents())
      {
        assert txids[..i + 1][..i] == txids[..i];
        var e := SettleTxid(txids[i], lookup(txids[i]));
        if e.Some? {
          SweepAbort(t0, txids, lookup, minConf, i + 1);
          wallets, notified := savedWallets, savedNotified;
          return Failure(e.value);
        }
      }
      assert txids[..|txids|] == txids;
      r := Success(());
    }

    /** The body of `check_tx`'s loop for one txid, given the daemon's answer; on an error the caller rolls back. */
    method SettleTxid(txid: string, conf: Option<int>) returns (e: Option<Error>)
      modifies this`wallets, this`notified
      ensures match SettleTx(old(Contents()), txid, conf, minConf)
        case Success(t) => Contents() == t && e.None?
        case Failure(err) => e == Some(err)
    {
      if conf.None? {
        notified := SetConfirmed(notified, txid, Errored);
        return None;
      }
      if conf.value < minConf {
        return None;
      }
      e := CreditDeposits(RowsOf(notified, txid));
      if e.None? {
        notified := SetConfirmed(notified, txid, Settled);
      }
    }

    /** `check_tx`'s inner loop: add the value of each row to its account's balance, stopping at the first error. */
    method CreditDeposits(rows: seq<TxRow>) returns (e: Option<Error>)
      modifies this`wallets
      ensures match CreditRows(old(wallets), rows)
        case Success(ws) => wallets == ws && e.None?
        case Failure(err) => e == Some(err)
    {
      for j := 0 to |rows|
        invariant CreditRows(old(wallets), rows[..j]) == Success(wallets)
      {
        assert rows[..j + 1][..j] == rows[..j];
        var row := rows[j];
        e := None;
        if row.account.None? {
          e := Some(NoRow);
        } else {
          var k := WalletIndex(wallets, row.account.value);
          if k.None? {
            e := Some(NoRow);
          } else if row.value.None? {
            e := Some(NullValue);
          } else {
            var balance := wallets[k.value].balance + row.value.value;
            if balance < 0 {
              e := Some(CheckViolation);
            } else {
              wallets := wallets[k.value := wallets[k.value].(balance := balance)];
            }
          }
        }
        if e.Some? {
          CreditRowsAbort(old(wallets), rows, j + 1);
          return e;
        }
      }
      assert rows[..|rows|] == rows;
      e := None;
    }
  }
}
