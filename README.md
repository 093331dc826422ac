# tipkotone ledger and command layer in Dafny

This project models two parts of tipkotone, a Twitter tip bot for the KOTO coin:

- **The deposit ledger** (`accountwallet.py`). It keeps four SQLite tables:
  - `account_wallet`: balances;
  - `account_address`: deposit addresses bound to accounts;
  - `notified_tx`: one row per deposit output;
  - `withdrawal_req`.
- **The command layer** (`tipbot.py`). It turns a tweet addressed to the bot into a command and then into a reply.

## Structure

Amounts are integers counting 1e-8 KOTO.

| file | module | what it holds |
|---|---|---|
| `wrappers.dfy` | `Wrappers` | `Option` and `Result` |
| `sqltx.dfy` | `SqlTx` | `sql_decorator` as a function |
| `tables.dfy` | `Tables` | the four tables as rows, the schema constraints, and the invariants |
| `ledger.dfy` | `Ledger` | each ledger operation as a function on the tables |
| `account_wallet.dfy` | `AccountWallet` | the class `Wallet` (see below) |
| `text.dfy` | `Text` | `split`, `join`, the prefix tests, and the white-space substitutions of `get_command` |
| `command.dfy` | `Commands` | `get_command` |
| `message.dfy` | `Messages` | `get_message` |
| `decimal.dfy` | `Decimals` | `Decimal_to_str` |
| `execute.dfy` | `Execution` | `execute` |

Details worth knowing:

- **`sql_decorator`** is the function `SqlTx.Retry`. The operation it wraps becomes a function from the attempt number and the tables to a result, so a failing attempt is just a `Failure`.
- **The tables** are a value of type `Tables`. `Tables.Valid` holds the schema's constraints and the ones the ledger keeps:
  - unique accounts and addresses;
  - balances ≥ 0;
  - every bound or credited account has a wallet row;
  - well-formed deposit rows.

  `Tables.Reconciled` says each balance is the sum of that account's settled deposits.
- **Ledger operations** are functions from the tables before a transaction to its outcome, with the new tables or an error.
- **The class `Wallet`** holds the tables as `seq` fields and does the work in place. Each method is one attempt of a decorated function and is proved equal to its `Ledger` function:
  - an error restores the fields, modelling the rollback;
  - `Transact` is the retry loop itself.
- **Daemon answers** become parameters. These are the new address (`getnewaddress`), the decoded transaction and the confirmation count.
- **The clock** is a parameter `now`.
- **`get_command`** also takes the bot's screen name and the case folding of `str.lower` as parameters.
- **`execute`** is split in two:
  - `Execution.CommandOf` runs `get_command`;
  - `Execution.Perform` holds the branching that follows.

  The questions `execute` asks Twitter, the wallet and the daemon are answered by a `Services` value. The requests it makes (a move, a withdrawal request, a follow) are returned beside the reply as a `Call`.

On two points a reader might expect other behaviour; the model follows the code:

- **Failed confirmation lookup.** `check_tx` marks every row of the txid errored, not only its pending rows. Under `Tables.Valid` all rows of a txid share one state, so the two readings agree (`Ledger.AllRowsPending`).
- **Withdrawal minimum.** The schema's `check(amount >= 0.1)` is the minimum kept (`Tables.MinWithdrawal`). No function in accountwallet.py writes `withdrawal_req`, so that table only carries its constraint.

## Model

| member | source | states |
|---|---|---|
| SqlTx.Retry | accountwallet.py:14-37 | At most 5 attempts. It commits exactly when some attempt succeeds, with the first successful attempt's state and value; before it every attempt failed. When all fail, it raises the last attempt's error. |
| SqlTx.RetryFrom | accountwallet.py:17-35 | From attempt `i` on: the first success commits. If none succeeds, the error raised is the last attempt's. |
| SqlTx.RetryDeterministic | accountwallet.py:14-37 | An operation that gives the same answer on every attempt commits on the first attempt or raises its error. The tables are then unchanged. |
| AccountWallet.NewAccountAddressUnitOfWork | accountwallet.py:46-53 | Decorated `get_new_account_address`, asking the daemon again on each attempt, commits only valid tables. So it meets `Transact`'s precondition. |
| AccountWallet.NotifyTxUnitOfWork | accountwallet.py:80-128 | Decorated `notify_tx`, decoding and reading the clock again on each attempt, commits only valid tables. |
| AccountWallet.CheckTxUnitOfWork | accountwallet.py:130-175 | Decorated `check_tx`, reading the clock and the daemon again on each attempt, commits only valid tables. |
| AccountWallet.Wallet.Transact | accountwallet.py:14-37 | The loop over 5 attempts leaves the tables as `Retry` says: committed on success, rolled back otherwise. It returns the committed value or the last error, and keeps `Valid`. |
| AccountWallet.Wallet.InitDb | accountwallet.py:39-44 | It creates the four tables empty. That state is valid and reconciled. |
| Ledger.EnsureWallet | accountwallet.py:50 | `insert or ignore`: the account ends up present. A new row with balance 0 is added only when the account was absent. Existing rows are unchanged. |
| Ledger.EnsureWalletValid | accountwallet.py:41 | Adding an account keeps accounts unique and loses none. |
| Ledger.NewAccountAddress | accountwallet.py:47-53 | It succeeds exactly when the daemon gave an address that is not yet bound; otherwise it raises the NOT NULL or UNIQUE error. On success it returns that address. It appends exactly one binding, adds a balance-0 wallet only if absent, and changes nothing else. |
| Ledger.NewAccountAddressPreserves | accountwallet.py:47-53 | Issuing an address keeps `Valid` and `Reconciled`. It adds the address to that account's list, and only to that account's. |
| AccountWallet.Wallet.GetNewAccountAddress | accountwallet.py:47-53 | The in-place insert equals `NewAccountAddress`, including its error cases. The insert keeps `Valid` and `Reconciled`. |
| Ledger.AddressesOf | accountwallet.py:56-60 | An address is listed exactly when it is bound to the account. |
| AccountWallet.Wallet.GetAddressesByAccount | accountwallet.py:56-60 | The loop over `account_address` collects exactly `AddressesOf`, in table order, and changes nothing. |
| Ledger.ConfirmingSum | accountwallet.py:69-75 | The sum of values of pending rows of the account newer than the cutoff. It fails only when such a row has NULL value. |
| Ledger.AccountBalance | accountwallet.py:63-77 | It ensures a wallet row for the account and changes nothing else. It returns the stored balance (0 if new) and the confirming sum. |
| Ledger.AccountBalancePreserves | accountwallet.py:63-77 | On valid tables the query cannot fail and keeps `Valid`. On reconciled tables the balance returned is the account's settled deposits. |
| Ledger.ConfirmingBounded | accountwallet.py:69-75 | On well-formed rows the confirming sum is ≥ 0. Settled plus confirming never exceeds all the account's deposits. |
| Ledger.NoSettledWithoutWallet | accountwallet.py:64-67 | An account without a wallet row has no settled deposits, so starting it at 0 keeps the balances reconciled. |
| AccountWallet.Wallet.GetAccountBalance | accountwallet.py:63-77 | The in-place query equals `AccountBalance`. On valid tables it succeeds and keeps `Valid` and `Reconciled`, and the balance is the settled sum. |
| AccountWallet.Wallet.SumConfirming | accountwallet.py:72-75 | The accumulation loop computes `ConfirmingSum`. |
| Ledger.Matches | accountwallet.py:106-124 | Scanning the outputs succeeds exactly when every output has an address list; otherwise it raises the not-iterable error. |
| Ledger.MatchesShape | accountwallet.py:106-124 | Each row found has the txid, the time, state pending, an account to which some address in `account_address` is bound, and a value ≥ 0. |
| Ledger.OutputRowsShape | accountwallet.py:107-124 | One output gives one pending row per bound address, in order. Each row carries that address's account and the output's value. |
| Ledger.MatchesStep | accountwallet.py:106-124 | One more output with addresses appends exactly that output's rows. |
| Ledger.NewTxRows | accountwallet.py:92-128 | A failed decode gives the single errored row. Otherwise there is at least one row, all with the txid and the time. |
| Ledger.NotifyTx | accountwallet.py:81-128 | A known txid changes nothing. A failed decode appends one errored row without account. Otherwise it appends the matching pending rows, or one unattributed row if nothing matched. It only appends, and only to `notified_tx`. |
| Ledger.NotifyTxIdempotent | accountwallet.py:86-90 | After a successful notification the same txid changes nothing, whatever the decode and the clock say. |
| Ledger.NotifyTxPreserves | accountwallet.py:81-128 | Notification keeps `Valid` and `Reconciled`. |
| Ledger.NewTxRowsWellFormed | accountwallet.py:92-128 | The new rows are well formed and not settled, and share one state. |
| Ledger.AppendTxPreserves | accountwallet.py:100-127 | Appending well-formed, unsettled rows of a new txid keeps `Valid` and `Reconciled`. |
| AccountWallet.Wallet.NotifyTx | accountwallet.py:81-128 | The in-place insertions equal `NotifyTx`, with rollback on error. They keep `Valid` and `Reconciled`. |
| AccountWallet.Wallet.AppendMatches | accountwallet.py:104-125 | The loop over outputs appends exactly the rows `Matches` finds, or reports its error. `accountFound` is true exactly when a row was appended. |
| AccountWallet.Wallet.AppendOutput | accountwallet.py:106-124 | One output: it appends that output's rows, or reports the not-iterable error. |
| AccountWallet.Wallet.AppendOutputRows | accountwallet.py:107-124 | The loop over addresses appends `OutputRows`, skipping unbound addresses. |
| Ledger.PendingTxids | accountwallet.py:134-136 | The txids are distinct and are exactly those with a pending row newer than the cutoff. |
| Ledger.SetConfirmed | accountwallet.py:175 | Every row of the txid gets the new state. Other rows are unchanged. |
| Ledger.SettleTx | accountwallet.py:142-175 | A failed lookup marks every row of the txid errored and leaves balances alone. Too few confirmations change nothing. Enough confirmations credit all rows of the txid, then mark them settled. |
| Ledger.CreditEffect | accountwallet.py:160-173 | Crediting one row adds its value to its account's balance only. Balances stay ≥ 0 and accounts are unchanged. |
| Ledger.CreditTotal | accountwallet.py:160-173 | Crediting one row raises the total of balances by exactly its value. |
| Ledger.CreditRowsEffect | accountwallet.py:158-173 | Crediting all rows of a txid adds to each account the sum of its values. The total rises by exactly the credited sum. |
| Ledger.AllRowsPending | accountwallet.py:134-160 | On valid tables, a txid with a pending row has all its rows pending, attributed to existing accounts, with values ≥ 0. |
| Ledger.SetConfirmedSettledFor | accountwallet.py:175 | Settling a txid's unsettled rows raises each account's settled sum by that txid's values for it. Marking them errored leaves the sum unchanged. |
| Ledger.SettleErroredPreserves | accountwallet.py:144-150 | Marking a pending txid errored keeps `Valid` and `Reconciled`. |
| Ledger.SettleCreditPreserves | accountwallet.py:152-175 | Settling a pending txid succeeds and keeps `Valid` and `Reconciled`. Each balance rises by that txid's values for the account; the total by the txid's total value. |
| Ledger.SettleTxPreserves | accountwallet.py:142-175 | Every outcome for a pending txid succeeds and keeps `Valid`, `Reconciled` and the set of accounts. |
| Ledger.SweepFrame | accountwallet.py:142-175 | The sweep keeps bindings, row count and each row's deposit (txid, time, account, value). Rows of other txids are unchanged. |
| Ledger.SweepSettles | accountwallet.py:142-175 | Every row of a swept txid with enough confirmations ends settled. |
| Ledger.SweepPreserves | accountwallet.py:142-175 | Sweeping distinct pending txids succeeds and keeps `Valid` and `Reconciled`. |
| Ledger.CheckTxPreserves | accountwallet.py:131-175 | On valid tables `check_tx` hits none of the ledger's own errors and keeps `Valid` and `Reconciled`. It changes only the state of rows of selected txids, and never touches a settled row. |
| Ledger.CheckTxSettlesOnce | accountwallet.py:131-175 | Once every selected txid is confirmed, a sweep leaves nothing to select. A later sweep changes nothing, so each deposit is credited once. |
| Ledger.CheckTxSucceeds | accountwallet.py:131-175 | On valid tables none of the ledger's own errors (missing wallet row, NULL value, negative balance) can occur in `check_tx`. A daemon call that raises is outside the model. |
| AccountWallet.Wallet.CheckTx | accountwallet.py:131-175 | The in-place sweep equals `Ledger.CheckTx`. On valid tables it hits none of the ledger's own errors and keeps `Valid` and `Reconciled`. |
| AccountWallet.Wallet.Sweep | accountwallet.py:142-175 | The loop over txids computes `SweepTxids`, with rollback on error. |
| AccountWallet.Wallet.SettleTxid | accountwallet.py:144-175 | One txid: the tables become `SettleTx`'s, or its error is reported. |
| AccountWallet.Wallet.CreditDeposits | accountwallet.py:158-173 | The crediting loop computes `CreditRows`, or reports the first missing row, NULL value or negative balance. |
| Text.Split | tipbot.py:13 | `str.split`: at least one piece, and no piece holds the separator. |
| Text.JoinSplit | tipbot.py:13 | Joining the pieces gives the text back. |
| Text.SplitJoin | tipbot.py:13 | Splitting joined pieces that are free of the separator gives the pieces back. |
| Text.FirstIndex | tipbot.py:16 | `list.index`: the first position holding the element. |
| Text.SubRunsEffect | tipbot.py:12 | The first substitution leaves no newline or full-width space. It keeps every character that is not white space, in order. |
| Text.SubRunsDedup | tipbot.py:12 | The first substitution changes only white space within runs. Collapsing its spaces (`Dedup`) gives what collapsing the tweet's white space gives (`Dedup(Blank(s))`). |
| Text.SqueezeEffect | tipbot.py:12 | The second substitution leaves no two spaces in a row, introduces no new character and keeps the visible ones. |
| Text.SqueezeDedup | tipbot.py:12 | The second substitution turns each run of spaces into exactly one space and changes nothing else: it equals dropping every space that follows a space (`Dedup`). |
| Text.NormalizeClean | tipbot.py:12 | The normalised text is the tweet with each maximal run of newlines, spaces and full-width spaces replaced by exactly one space (`Dedup(Blank(s))`). So it is clean and has the tweet's visible characters in order. |
| Text.CleanFixed | tipbot.py:12 | Both substitutions leave a clean text alone. |
| Text.NormalizeIdempotent | tipbot.py:12 | Normalising twice is normalising once. |
| Text.WordsOfClean | tipbot.py:12-13 | Words of a clean text hold no newline, space or full-width space (other white space, such as tabs, stays in the words). Only the first and last can be empty. |
| Commands.Keyword | tipbot.py:21-37 | The keyword tests in source order. `tip` and `withdraw` take the words after the keyword. The word after the mention matches no test exactly when there is no command. |
| Commands.KeywordTests | tipbot.py:21-37 | Each command comes from the first test that passes, in source order. Tip is first. Balance and deposit use the word-or-prefix tests. Withdraw and help use their word lists. Follow looks at the lowered, joined rest. |
| Commands.GetCommand | tipbot.py:11-39 | The `while` loop over mentions computes `Dispatch` on the normalised words. |
| Commands.DispatchFindsFirstHit | tipbot.py:15-39 | There is a command exactly when some mention of the bot is followed by a keyword. It is the first such mention's command; mentions followed by anything else are passed over. |
| Commands.TipParams | tipbot.py:21-22 | A tip's parameters are the words after a mention and a tip keyword. |
| Commands.WithdrawParams | tipbot.py:30-31 | A withdrawal's parameters are the words after a mention and a withdraw keyword. |
| Commands.WordsHaveNoBreaks | tipbot.py:12-13 | The words hold no space, newline or full-width space (tabs and other white space are kept). Only the first and last can be empty. |
| Messages.GetMessage | tipbot.py:41-45 | The loop that prepends mentions from the last name computes `Message`. |
| Messages.MessageShape | tipbot.py:41-45 | A reply is the mentions in argument order, the text, a blank line, and the four letters. |
| Messages.MessageEnds | tipbot.py:41-45 | A reply ends with the blank line and the letters, and starts with its first mention. |
| Messages.MessageInjective | tipbot.py:41-45 | The same mentions and letters give the same reply only for the same text. |
| Messages.MentionsInOrder | tipbot.py:42-43 | Split on spaces, the mentions are the screen names with `@`, in argument order. |
| Decimals.DecimalToStr | tipbot.py:47-63 | The reversed-string loop computes `DecimalStr`: 8 decimals, trailing zeros dropped, then the point if reached. |
| Decimals.TrimFixed | tipbot.py:48-61 | The loop drops zeros from the end, then a point if one is reached, and stops at anything else. |
| Decimals.TrimZerosDropsZeros | tipbot.py:51-54 | What trimming drops is zeros only. |
| Decimals.DecimalStrParts | tipbot.py:47-63 | The result is the sign, the integer digits, and a point and decimals only if a nonzero decimal remains. |
| Decimals.DecimalStrEnds | tipbot.py:47-63 | The result never ends in `.`. If it contains `.`, it does not end in `0`. |
| Decimals.DecimalStrRoundTrip | tipbot.py:47-63 | Reading the result back gives exactly the amount formatted. |
| Decimals.DecimalStrFourPointFive | tipbot.py:47-63 | 4.50000000 KOTO is written `4.5`. |
| Decimals.DecimalStrWhole | tipbot.py:47-63 | A whole number of KOTO below ten, such as 5 or 0, is written as its single digit. |
| Decimals.TrimZerosValue | tipbot.py:51-54 | Dropping `k` trailing zeros divides the decimals' value by 10^k. |
| Execution.DisplayName | tipbot.py:67 | The name used in replies. A name starting with `@` is kept whole. Any other name is cut just before its first `@`, or kept whole if it has none. |
| Execution.RecipientNameAsWrittenNamesSender | tipbot.py:106 | As written, a recipient named `@bob` tipped by `Alice` is announced as `Alice`. |
| Execution.RecipientName | tipbot.py:106 | Corrected: a recipient name starting with `@` is kept. |
| Execution.RecipientNameOwn | tipbot.py:106 | The corrected name is a start of the recipient's own name. For names not starting with `@` it agrees with the code as written. |
| Execution.Perform | tipbot.py:65-214 | There is a reply exactly when there is a command. There is no call without a reply. The tip reply names the recipient by the corrected line 106 (see Findings). |
| Execution.RepliesExactlyToCommands | tipbot.py:68-71 | `execute` replies exactly when some mention of the bot is followed by a keyword. Otherwise there is no reply and no call. |
| Execution.ReplyAddressing | tipbot.py:65-214 | Every reply ends with the blank line and the letters. A reply to a tweet starts by mentioning its author. |
| Execution.CallsFollowCommand | tipbot.py:65-214 | Only `tip` moves money and only `withdraw` requests a withdrawal, both for the sender's account. A follow happens exactly for `followme`, of the sender. |
| Execution.TooFewParams | tipbot.py:74-77 | Fewer than two parameters after `tip` (or `withdraw`, lines 158-161) give the usage reply and no call. |
| Execution.TipDecision | tipbot.py:79-108 | The first parameter starting with `@` names the recipient; the other is the amount. With none, the reply is wrong-destination; an unknown recipient gives not-found; neither moves money. A move happens exactly when the recipient is the bot or known to Twitter, from the sender to `FREE` or to the recipient's account. |
| Execution.TipToBot | tipbot.py:92-93 | A tip to the bot's own name moves to `FREE` and does not depend on the Twitter lookup. |
| Execution.WithdrawDecision | tipbot.py:163-181 | The address is parameter 0 if it starts with `k` or `jz`, else parameter 1 if that does; the other is the amount. A request is made exactly when there is such a parameter and the daemon calls it valid. Otherwise the reply is bad-address and nothing is requested. |
| Execution.RejectionsDistinct | tipbot.py:110-123 | `'wrong'`, `'few'` and `'insufficient'` give three different replies. |
| Execution.TipReplies | tipbot.py:108-134 | A rejection tag from `move` gives that tag's reply. A completed move gives a reply that is none of the rejections. For a donation to the bot, it is the thank-you with the amount written by `Decimal_to_str`. For a user, it is the tip text: the sender's display name, the recipient's name, and the amount from `Decimal_to_str`. It mentions the sender and then the recipient when the command came in a tweet. |
| Execution.WithdrawReplies | tipbot.py:181-201 | A rejection tag gives that tag's reply. A completed request gives the accepted reply with the amount written by `Decimal_to_str`, which is none of the rejections. |

## Left out

- Floating point: balances and values are SQLite `real`, converted through `Decimal(str(...))` and `float(...)`. The model uses exact integers counting 1e-8 KOTO, so float rounding is not reproduced.
- The SQL engine: SQL parsing, file access, locking, the 60-second timeout and the EXCLUSIVE isolation level. A failed attempt is only a `Failure` the retry loop sees.
- The `print` logging.
- The clock: `time.time()` is the parameter `now`. `notify_tx` reads the clock once per row; the model uses one `now` for the whole call.
- The coin daemon: `getnewaddress`, `decoderawtransaction`/`getrawtransaction`, `gettransaction` and `validateaddress` become parameters. coinrpc.py (the JSON-RPC transport) is not part of this model. A daemon call that raises is not modelled. This covers `getnewaddress` (accountwallet.py:48) and `gettransaction` (accountwallet.py:144), which no `try` guards, and which in the source would roll the attempt back and retry it. So `CheckTxSucceeds` and the other lemmas that say a call succeeds exclude only the ledger's own errors.
- Twitter: twitter.py and aaapi.py (HTTP, OAuth, the webhook signature, the Flask routes and process spawning) are not part of this model. `twitter.user` and `twitter.follow` become a `Services` answer and a `Call`.
- Unicode case folding: `str.lower` is an arbitrary function parameter. The regular expressions become equality and prefix tests, with the `$` anchor matching before a final newline as Python's does.
- `random.choice`: the four letters are the parameter `nonce`.
- Configuration: config.py is not part of this model. `MINCONF` and `BOTSCREENNAME` are the parameters `minConf` and `bot`.
- `aw.move`, `aw.add_withdrawal_request` and `aw.get_account_address`: they are not defined in accountwallet.py. The model takes their answers as oracle results, so transfer conservation and withdrawal debits are not modelled, and no operation writes `withdrawal_req`.
- `exec_withdrawal`: it does nothing, so there is nothing to model.
- The command-line dispatch of accountwallet.py (lines 180-198) and its creation of the database when the file is missing (lines 201-202). `InitDb` models what that creation makes.
- The event loops of tipbot.py (lines 216-249), including the RT/QT filter and the cut to 140 characters.
- Execution.Perform: takes the balance pair from a `Services` answer, because `execute` gets it from the wallet through a call the model leaves opaque. `Wallet.GetAccountBalance` models that call separately.
- AccountWallet.Wallet.CheckTx: visits the selected txids in first-appearance order. The source iterates a Python `set`, whose order is its hash order. The model does not prove the result independent of that order.
- Decimals.DecimalToStr: takes an amount already in units of 1e-8, so the rounding `f'{d:.8f}'` applies to longer decimals is not modelled.
- Execution.TipTo: names the recipient by the corrected line 106 (`RecipientName`), not as written. As written, a recipient whose name starts with `@` is announced under the sender's display name (see Findings). Apart from that case the two agree.
- Execution.WithdrawTo: as written, tipbot.py:176 calls `call` on the module `coinrpc`. That module defines only the class `CoinRPC` and no module-level `call`, so a withdrawal that reaches line 176 raises AttributeError before any request is made. The model treats that check as a daemon answer (`Services.isValid`), as if made through a `CoinRPC` instance. WithdrawDecision states that intended behaviour.
- Tables.Reconciled: holds only for the operations modelled here. `aw.move` and `aw.add_withdrawal_request` would change balances without a settled deposit, and they are not modelled. So `Reconciled`, and the lemmas built on it (`SettleCreditPreserves`, `CheckTxPreserves`, `CheckTxSettlesOnce`), say nothing about a ledger in which tips or withdrawals have run.

## Findings

| source | as written | input that shows it | evidently intended | confidence | as-written member | corrected member |
|---|---|---|---|---|---|---|
| tipbot.py:106 | A recipient name that starts with `@` is replaced by the sender's own display name. | Sender `Alice` tips a user whose Twitter name is `@bob`: the reply announces a tip from Alice to Alice. | Keep the recipient's name, as line 67 does for the sender. | high; not executed | Execution.RecipientNameAsWritten, Execution.RecipientNameAsWrittenNamesSender | Execution.RecipientName, Execution.RecipientNameOwn |
