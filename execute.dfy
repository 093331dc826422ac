/**
 * `execute`: what the bot does with a tweet or direct message addressed to
 * it.  The text is turned into a command by `get_command`; the calls
 * `execute` makes to Twitter, to the wallet and to the coin daemon are
 * replaced by the answers they give (`Services`), and what the bot asks
 * them to do is returned beside the reply (`Call`).
 */
module Execution {
  import opened Wrappers
  import opened Text
  import opened Commands
  import opened Decimals
  import opened Messages

  /** An incoming message: its text and its author. `fromTweet` is false for a direct message. */
  datatype Event = Event(text: string, userId: string, screenName: string, name: string, fromTweet: bool)

  /** The fields of `twitter.user` that `execute` reads. */
  datatype User = User(idStr: string, name: string)

  /** What `aw.move` and `aw.add_withdrawal_request` answer: a rejection tag, or the amount in units of 1e-8 KOTO. */
  datatype Transfer = Wrong | Few | Insufficient | Done(units: int)

  /**
   * The answers of the outside world: the case folding of `str.lower`,
   * `twitter.user` (`None` for a reply carrying an error), `aw.move`,
   * `aw.get_account_balance` (stored and confirming, in units),
   * `aw.get_account_address`, the `isvalid` field of `validateaddress`,
   * and `aw.add_withdrawal_request`.
   */
  datatype Services = Services(
    lower: string -> string,
    user: string -> Option<User>,
    move: (string, string, string) -> Transfer,
    balance: string -> (int, int),
    address: string -> string,
    isValid: string -> bool,
    withdraw: (string, string, string) -> Transfer)

  /** The requests `execute` makes that change something outside it. */
  datatype Call =
    | NoCall
    | Move(from: string, to: string, amount: string)
    | WithdrawalRequest(account: string, address: string, amount: string)
    | FollowUser(userId: string)

  datatype Outcome = Outcome(reply: Option<string>, call: Call)

  const Usage: string := "tipkotoneの使い方をご確認ください！ https://github.com/akarinS/tipkotone/blob/master/README.md"
  const WrongDestination: string := "宛先が間違っています・・・"
  const NotFound: string := "宛先が見つかりませんでした・・・"
  const WrongAmount: string := "不正な金額です・・・"
  const TooSmall: string := "金額が小さすぎです・・・"
  const NotEnough: string := "残高が足りません・・・"
  const BadAddress: string := "アドレスが間違っています・・・"
  const HelpText: string := "tipkotoneの使い方はこちらです！ https://github.com/akarinS/tipkotone/blob/master/README.md"
  const Followed: string := "フォローしました！"

  /** The account that receives tips sent to the bot itself. */
  const Free: string := "FREE"

  function AccountOf(userId: string): string {
    "twitter-" + userId
  }

  /** `name.split('@')[0] if not name.startswith('@') else name`: a display name cut at its first `@`. */
  function DisplayName(name: string): (r: string)
    ensures StartsWith(name, r)
    ensures StartsWith(name, "@") ==> r == name
    ensures !StartsWith(name, "@") ==> '@' !in r && (r == name || name[|r|] == '@')
  {
    if StartsWith(name, "@") then name
    else
      var r := Split(name, '@')[0];
      assert r == name || (r == name[..FirstIndex(name, '@')] && '@' in name);
      r
  }

  /**
   * The recipient's name as `execute` writes it (tipbot.py:106): a name
   * that starts with `@` is replaced by the sender's name.
   */
  function RecipientNameAsWritten(toName: string, senderName: string): string {
    if StartsWith(toName, "@") then senderName else Split(toName, '@')[0]
  }

  /** The recipient's name treated like the sender's (tipbot.py:67), which the model uses. */
  function RecipientName(toName: string): (r: string)
    ensures StartsWith(toName, "@") ==> r == toName
  {
    DisplayName(toName)
  }

  /** A recipient whose name starts with `@` is announced under the sender's name. */
  lemma RecipientNameAsWrittenNamesSender()
    ensures RecipientNameAsWritten("@bob", "Alice") == "Alice"
    ensures RecipientName("@bob") == "@bob"
  {
    assert StartsWith("@bob", "@");
  }

  /** The corrected name depends on the recipient's name alone and is a start of it. */
  lemma RecipientNameOwn(toName: string)
    ensures StartsWith(toName, RecipientName(toName))
    ensures !StartsWith(toName, "@") ==> RecipientName(toName) == RecipientNameAsWritten(toName, "")
  {
  }

  function DonationText(amount: string): string {
    amount + "KOTO 寄付していただきありがとうございます！"
  }

  function TipText(name: string, toName: string, amount: string): string {
    name + "さんから " + toName + "さんへ お心付けです！ " + amount + "KOTO"
  }

  function BalanceText(name: string, balance: int, confirming: int): string {
    if confirming == 0 then name + "さんの残高は " + DecimalStr(balance) + "KOTO です！"
    else name + "さんの残高は " + DecimalStr(balance) + "KOTO (+" + DecimalStr(confirming) + "KOTO 承認中) です！"
  }

  function DepositText(address: string): string {
    address + " に送金してください！"
  }

  function WithdrawalText(amount: string): string {
    amount + "KOTO の出金リクエストを受け付けました！"
  }

  /** The reply for a rejected transfer, one text per tag. */
  function RejectionText(t: Transfer): string
    requires !t.Done?
  {
    match t
    case Wrong => WrongAmount
    case Few => TooSmall
    case Insufficient => NotEnough
  }

  /** `get_message(text, screen_name) if from_tweet else get_message(text)` */
  function Reply(ev: Event, text: string, nonce: string): Option<string> {
    Some(Message(text, if ev.fromTweet then [ev.screenName] else [], nonce))
  }

  /** `get_message(text, screen_name, to_screen_name) if from_tweet else get_message(text)` */
  function TipNames(ev: Event, to: string): seq<string> {
    if ev.fromTweet then [ev.screenName, to] else []
  }

  /** `re.match('^(k|jz)', p)`: what a KOTO address starts with. */
  predicate IsAddressLike(p: string) {
    StartsWith(p, "k") || StartsWith(p, "jz")
  }

  /** A tip of `amount` to the screen name `to`. */
  function TipTo(ev: Event, to: string, amount: string, bot: string, nonce: string, sv: Services): Outcome {
    var from := AccountOf(ev.userId);
    if to == bot then
      var r := sv.move(from, Free, amount);
      var text := if r.Done? then DonationText(DecimalStr(r.units)) else RejectionText(r);
      Outcome(Reply(ev, text, nonce), Move(from, Free, amount))
    else
      match sv.user(to)
      case None => Outcome(Reply(ev, NotFound, nonce), NoCall)
      case Some(u) =>
        var toAccount := AccountOf(u.idStr);
        var r := sv.move(from, toAccount, amount);
        if !r.Done? then Outcome(Reply(ev, RejectionText(r), nonce), Move(from, toAccount, amount))
        else
          var text := TipText(DisplayName(ev.name), RecipientName(u.name), DecimalStr(r.units));
          Outcome(Some(Message(text, TipNames(ev, to), nonce)), Move(from, toAccount, amount))
  }

  /** The `tip` branch: the first parameter starting with `@` names the recipient, the other is the amount. */
  function RunTip(ev: Event, params: seq<string>, bot: string, nonce: string, sv: Services): Outcome {
    if |params| < 2 then Outcome(Reply(ev, Usage, nonce), NoCall)
    else if StartsWith(params[0], "@") then TipTo(ev, params[0][1..], params[1], bot, nonce, sv)
    else if StartsWith(params[1], "@") then TipTo(ev, params[1][1..], params[0], bot, nonce, sv)
    else Outcome(Reply(ev, WrongDestination, nonce), NoCall)
  }

  /** A withdrawal of `amount` to `address`, if the daemon takes it for a valid address. */
  function WithdrawTo(ev: Event, address: string, amount: string, nonce: string, sv: Services): Outcome {
    if !sv.isValid(address) then Outcome(Reply(ev, BadAddress, nonce), NoCall)
    else
      var account := AccountOf(ev.userId);
      var r := sv.withdraw(account, address, amount);
      var text := if r.Done? then WithdrawalText(DecimalStr(r.units)) else RejectionText(r);
      Outcome(Reply(ev, text, nonce), WithdrawalRequest(account, address, amount))
  }

  /** The `withdraw` branch: the first parameter that looks like an address is the address, the other the amount. */
  function RunWithdraw(ev: Event, params: seq<string>, nonce: string, sv: Services): Outcome {
    if |params| < 2 then Outcome(Reply(ev, Usage, nonce), NoCall)
    else if IsAddressLike(params[0]) then WithdrawTo(ev, params[0], params[1], nonce, sv)
    else if IsAddressLike(params[1]) then WithdrawTo(ev, params[1], params[0], nonce, sv)
    else Outcome(Reply(ev, BadAddress, nonce), NoCall)
  }

  /** The command `get_command` finds in the event's text. */
  function CommandOf(ev: Event, bot: string, sv: Services): Command {
    Dispatch(Words(ev.text), "@" + bot, sv.lower)
  }

  /** What `execute` does once the command is known: a reply exactly for a command, and a call only with a reply. */
  function Perform(c: Command, ev: Event, bot: string, nonce: string, sv: Services): (o: Outcome)
    ensures o.reply.Some? <==> c != NoCommand
    ensures o.reply.None? ==> o.call == NoCall
  {
    var account := AccountOf(ev.userId);
    match c
    case NoCommand => Outcome(None, NoCall)
    case Tip(params) => RunTip(ev, params, bot, nonce, sv)
    case Balance =>
      var (balance, confirming) := sv.balance(account);
      Outcome(Reply(ev, BalanceText(DisplayName(ev.name), balance, confirming), nonce), NoCall)
    case Deposit => Outcome(Reply(ev, DepositText(sv.address(account)), nonce), NoCall)
    case Withdraw(params) => RunWithdraw(ev, params, nonce, sv)
    case Help => Outcome(Reply(ev, HelpText, nonce), NoCall)
    case Follow => Outcome(Reply(ev, Followed, nonce), FollowUser(ev.userId))
  }

  /** `execute` for the bot with screen name `bot`; `nonce` stands for the four random letters of the reply. */
  function Execute(ev: Event, bot: string, nonce: string, sv: Services): Outcome {
    Perform(CommandOf(ev, bot, sv), ev, bot, nonce, sv)
  }

  // ------------------------------------------------------------ properties

  /**
   * The bot answers exactly the messages in which some mention of it is
   * followed by a keyword; any other message gets no reply and causes no call.
   */
  lemma RepliesExactlyToCommands(ev: Event, bot: string, nonce: string, sv: Services)
    ensures var o := Execute(ev, bot, nonce, sv);
      && (o.reply.Some? <==> exists i :: Hit(Words(ev.text), "@" + bot, sv.lower, i))
      && (o.reply.None? ==> o.call == NoCall)
  {
    DispatchFindsFirstHit(Words(ev.text), "@" + bot, sv.lower);
  }

  /** A reply that ends with the blank line and the letters and, for a tweet, starts by mentioning its author. */
  predicate Addressed(ev: Event, m: string, nonce: string) {
    && EndsWith(m, "\n\n" + nonce)
    && (ev.fromTweet ==> StartsWith(m, "@" + ev.screenName + " "))
  }

  lemma MessageAddressed(ev: Event, text: string, others: seq<string>, nonce: string)
    ensures Addressed(ev, Message(text, if ev.fromTweet then [ev.screenName] + others else [], nonce), nonce)
  {
    MessageEnds(text, if ev.fromTweet then [ev.screenName] + others else [], nonce);
  }

  /** Both ways `execute` builds a reply address it properly. */
  lemma RepliesAddressed(ev: Event, nonce: string)
    ensures forall text: string :: Addressed(ev, Reply(ev, text, nonce).value, nonce)
    ensures forall text: string, to: string :: Addressed(ev, Message(text, TipNames(ev, to), nonce), nonce)
  {
    forall text: string ensures Addressed(ev, Reply(ev, text, nonce).value, nonce) {
      MessageAddressed(ev, text, [], nonce);
      assert [ev.screenName] + [] == [ev.screenName];
    }
    forall text: string, to: string ensures Addressed(ev, Message(text, TipNames(ev, to), nonce), nonce) {
      MessageAddressed(ev, text, [to], nonce);
      assert [ev.screenName] + [to] == [ev.screenName, to];
    }
  }

  /** Every reply ends with the blank line and the letters, and a reply to a tweet starts by mentioning its author. */
  lemma ReplyAddressing(c: Command, ev: Event, bot: string, nonce: string, sv: Services)
    ensures var o := Perform(c, ev, bot, nonce, sv); o.reply.Some? ==> Addressed(ev, o.reply.value, nonce)
  {
    RepliesAddressed(ev, nonce);
    if c.Tip? && |c.params| >= 2 {
      if StartsWith(c.params[0], "@") {
        assert Perform(c, ev, bot, nonce, sv) == TipTo(ev, c.params[0][1..], c.params[1], bot, nonce, sv);
      } else if StartsWith(c.params[1], "@") {
        assert Perform(c, ev, bot, nonce, sv) == TipTo(ev, c.params[1][1..], c.params[0], bot, nonce, sv);
      }
    }
  }

  /** Only `tip`, `withdraw` and `followme` ask the outside world to do anything, and always on the sender's behalf. */
  lemma CallsFollowCommand(c: Command, ev: Event, bot: string, nonce: string, sv: Services)
    ensures var o := Perform(c, ev, bot, nonce, sv);
      && (o.call.Move? ==> c.Tip? && o.call.from == AccountOf(ev.userId))
      && (o.call.WithdrawalRequest? ==> c.Withdraw? && o.call.account == AccountOf(ev.userId))
      && (o.call.FollowUser? <==> c.Follow?)
      && (o.call.FollowUser? ==> o.call.userId == ev.userId)
  {
  }

  /** Fewer than two words after `tip` or `withdraw`: the usage reply, and no call. */
  lemma TooFewParams(c: Command, ev: Event, bot: string, nonce: string, sv: Services)
    requires (c.Tip? || c.Withdraw?) && |c.params| < 2
    ensures Perform(c, ev, bot, nonce, sv) == Outcome(Reply(ev, Usage, nonce), NoCall)
  {
  }

  /** Which parameter of a tip names the recipient, if either does. */
  function RecipientIndex(params: seq<string>): Option<nat>
    requires |params| >= 2
  {
    if StartsWith(params[0], "@") then Some(0)
    else if StartsWith(params[1], "@") then Some(1)
    else None
  }

  /**
   * Who a tip goes to: the first of the two parameters that starts with
   * `@` names the recipient and the other is the amount.  Without such a
   * parameter the reply says the destination is wrong, and for an unknown
   * recipient that it was not found; in neither case is money moved.  A
   * move is requested exactly when a recipient is named and is the bot or
   * is known to Twitter.
   */
  lemma TipDecision(ev: Event, bot: string, nonce: string, sv: Services, params: seq<string>)
    requires |params| >= 2
    ensures var o := Perform(Tip(params), ev, bot, nonce, sv);
      match RecipientIndex(params)
      case None => o == Outcome(Reply(ev, WrongDestination, nonce), NoCall)
      case Some(i) =>
        var to := params[i][1..];
        && StartsWith(params[i], "@") && (i == 1 ==> !StartsWith(params[0], "@"))
        && (to != bot && sv.user(to).None? ==> o == Outcome(Reply(ev, NotFound, nonce), NoCall))
        && (o.call.Move? <==> to == bot || sv.user(to).Some?)
        && (o.call.Move? ==>
              && o.call.from == AccountOf(ev.userId)
              && o.call.amount == params[1 - i]
              && o.call.to == if to == bot then Free else AccountOf(sv.user(to).value.idStr))
  {
  }

  /** A tip to the bot's own screen name goes to `FREE`, and Twitter is not asked who the recipient is. */
  lemma TipToBot(ev: Event, bot: string, nonce: string, sv: Services, params: seq<string>, users: string -> Option<User>)
    requires |params| >= 2 && RecipientIndex(params).Some?
    requires params[RecipientIndex(params).value][1..] == bot
    ensures Perform(Tip(params), ev, bot, nonce, sv).call.Move?
    ensures Perform(Tip(params), ev, bot, nonce, sv).call.to == Free
    ensures Perform(Tip(params), ev, bot, nonce, sv.(user := users)) == Perform(Tip(params), ev, bot, nonce, sv)
  {
  }

  /**
   * Where the withdrawal goes: the first of the two parameters that looks
   * like an address, and the other is the amount.  A request is made
   * exactly when there is such a parameter and the daemon takes it for a
   * valid address; otherwise the reply says the address is wrong.
   */
  lemma WithdrawDecision(ev: Event, bot: string, nonce: string, sv: Services, params: seq<string>)
    requires |params| >= 2
    ensures var o := Perform(Withdraw(params), ev, bot, nonce, sv);
      var a := if IsAddressLike(params[0]) then 0 else 1;
      && (o.call.WithdrawalRequest? <==> IsAddressLike(params[a]) && sv.isValid(params[a]))
      && (o.call.WithdrawalRequest? ==> o.call == WithdrawalRequest(AccountOf(ev.userId), params[a], params[1 - a]))
      && (!o.call.WithdrawalRequest? ==> o == Outcome(Reply(ev, BadAddress, nonce), NoCall))
  {
  }

  /** The last character of each reply text, which tells the replies apart. */
  lemma TextEndings(amount: string, name: string, toName: string)
    ensures WrongAmount[|WrongAmount| - 1] == '・' && TooSmall[|TooSmall| - 1] == '・' && NotEnough[|NotEnough| - 1] == '・'
    ensures var d := DonationText(amount); d[|d| - 1] == '！'
    ensures var t := TipText(name, toName, amount); t[|t| - 1] == 'O'
    ensures var w := WithdrawalText(amount); w[|w| - 1] == '！'
  {
  }

  /** The three rejection tags give three different replies. */
  lemma RejectionsDistinct(ev: Event, nonce: string, t1: Transfer, t2: Transfer)
    requires !t1.Done? && !t2.Done? && t1 != t2
    ensures Reply(ev, RejectionText(t1), nonce) != Reply(ev, RejectionText(t2), nonce)
  {
    var names := if ev.fromTweet then [ev.screenName] else [];
    if Reply(ev, RejectionText(t1), nonce) == Reply(ev, RejectionText(t2), nonce) {
      MessageInjective(RejectionText(t1), RejectionText(t2), names, nonce);
    }
  }

  /** Replies whose texts end differently are different. */
  lemma DifferentEndings(t1: string, n1: seq<string>, t2: string, n2: seq<string>, nonce: string)
    requires t1 != [] && t2 != [] && t1[|t1| - 1] != t2[|t2| - 1]
    ensures Message(t1, n1, nonce) != Message(t2, n2, nonce)
  {
    MessageLastChar(t1, n1, nonce);
    MessageLastChar(t2, n2, nonce);
  }

  /**
   * The answer to a transfer decides the reply: a rejection tag gives the
   * reply for that tag, and a transfer carried out gives a reply that is
   * none of the rejections and states the amount, written by `Decimal_to_str`.
   */
  lemma TipReplies(ev: Event, to: string, amount: string, bot: string, nonce: string, sv: Services, t: Transfer)
    requires TipTo(ev, to, amount, bot, nonce, sv).call.Move?
    requires !t.Done?
    ensures var o := TipTo(ev, to, amount, bot, nonce, sv);
      var r := sv.move(o.call.from, o.call.to, o.call.amount);
      && (!r.Done? ==> o.reply == Reply(ev, RejectionText(r), nonce))
      && (r.Done? ==> o.reply != Reply(ev, RejectionText(t), nonce))
      && (r.Done? && to == bot ==> o.reply == Reply(ev, DonationText(DecimalStr(r.units)), nonce))
      && (r.Done? && to != bot ==>
            && sv.user(to).Some?
            && o.reply == Some(Message(TipText(DisplayName(ev.name), RecipientName(sv.user(to).value.name), DecimalStr(r.units)),
                                       TipNames(ev, to), nonce)))
  {
    var o := TipTo(ev, to, amount, bot, nonce, sv);
    var r := sv.move(o.call.from, o.call.to, o.call.amount);
    if r.Done? {
      var a := DecimalStr(r.units);
      TextEndings(a, DisplayName(ev.name), if to == bot then "" else RecipientName(sv.user(to).value.name));
      var names := if ev.fromTweet then [ev.screenName] else [];
      if to == bot {
        DifferentEndings(DonationText(a), names, RejectionText(t), names, nonce);
      } else {
        var text := TipText(DisplayName(ev.name), RecipientName(sv.user(to).value.name), a);
        DifferentEndings(text, TipNames(ev, to), RejectionText(t), names, nonce);
      }
    }
  }

  lemma WithdrawReplies(ev: Event, address: string, amount: string, nonce: string, sv: Services, t: Transfer)
    requires WithdrawTo(ev, address, amount, nonce, sv).call.WithdrawalRequest?
    requires !t.Done?
    ensures var o := WithdrawTo(ev, address, amount, nonce, sv);
      var r := sv.withdraw(o.call.account, o.call.address, o.call.amount);
      && (!r.Done? ==> o.reply == Reply(ev, RejectionText(r), nonce))
      && (r.Done? ==> o.reply == Reply(ev, WithdrawalText(DecimalStr(r.units)), nonce))
      && (r.Done? ==> o.reply != Reply(ev, RejectionText(t), nonce))
  {
    var o := WithdrawTo(ev, address, amount, nonce, sv);
    var r := sv.withdraw(o.call.account, o.call.address, o.call.amount);
    if r.Done? {
      var a := DecimalStr(r.units);
      TextEndings(a, "", "");
      var names := if ev.fromTweet then [ev.screenName] else [];
      DifferentEndings(WithdrawalText(a), names, RejectionText(t), names, nonce);
    }
  }
}
