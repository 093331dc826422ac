/**
 * `get_command`: normalise the white space of a tweet, cut it into words,
 * and look at the word after each mention of the bot in turn until one is
 * a command keyword.
 *
 * Case folding is a parameter `lower` (Python's `str.lower`).  Because
 * nothing is assumed about it, the regular expressions are modelled
 * exactly, including the `$` anchor, which also matches just before a
 * final newline.
 */
module Commands {
  import opened Wrappers
  import opened Text

  datatype Command =
    | NoCommand
    | Tip(params: seq<string>)
    | Balance
    | Deposit
    | Withdraw(params: seq<string>)
    | Help
    | Follow

  const TipWords: seq<string> := ["tip", "投げ銭", "投銭", "send", "送金"]
  const WithdrawWords: seq<string> := ["withdraw", "出金"]
  const HelpWords: seq<string> := ["help", "ヘルプ"]
  const FollowWords: seq<string> := ["followme", "フォローミー", "フォローして"]

  /** `re.match('^(k1|k2|...)$', s)`: `s` is one of the words, or one of them and a final newline. */
  predicate IsOneOf(s: string, ks: seq<string>) {
    exists k :: k in ks && (s == k || s == k + "\n")
  }

  /** `re.match('^.*$', r)`: no newline in `r` except possibly its last character. */
  predicate OneLine(r: string) {
    forall i :: 0 <= i < |r| - 1 ==> r[i] != '\n'
  }

  /** `re.match('^(w|p.*)$', s)`: the word `w` exactly, or anything on one line starting with `p`. */
  predicate IsWordOrPrefixed(s: string, w: string, p: string) {
    s == w || s == w + "\n" || (StartsWith(s, p) && OneLine(s[|p|..]))
  }

  /** `re.match('^(k1|k2|...)', s)`: `s` starts with one of the words. */
  predicate StartsWithOneOf(s: string, ks: seq<string>) {
    exists k :: k in ks && StartsWith(s, k)
  }

  /** `''.join([word.lower() for word in ws])` */
  function LowerJoined(ws: seq<string>, lower: string -> string): string {
    if ws == [] then "" else lower(ws[0]) + LowerJoined(ws[1..], lower)
  }

  /**
   * The keyword tests on the words after a mention, in the order the
   * source makes them.  `tip` and `withdraw` take the words after the
   * keyword as their parameters.
   */
  function Keyword(rest: seq<string>, lower: string -> string): (r: Option<Command>)
    requires rest != []
    ensures r != Some(NoCommand)
    ensures r.Some? && r.value.Tip? ==> r.value.params == rest[1..] && IsOneOf(lower(rest[0]), TipWords)
    ensures r.Some? && r.value.Withdraw? ==> r.value.params == rest[1..] && IsOneOf(lower(rest[0]), WithdrawWords)
    ensures r.None? <==>
              && !IsOneOf(lower(rest[0]), TipWords)
              && !IsWordOrPrefixed(lower(rest[0]), "balance", "残高")
              && !IsWordOrPrefixed(lower(rest[0]), "deposit", "入金")
              && !IsOneOf(lower(rest[0]), WithdrawWords)
              && !IsOneOf(lower(rest[0]), HelpWords)
              && !StartsWithOneOf(LowerJoined(rest, lower), FollowWords)
  {
    var w := lower(rest[0]);
    if IsOneOf(w, TipWords) then Some(Tip(rest[1..]))
    else if IsWordOrPrefixed(w, "balance", "残高") then Some(Balance)
    else if IsWordOrPrefixed(w, "deposit", "入金") then Some(Deposit)
    else if IsOneOf(w, WithdrawWords) then Some(Withdraw(rest[1..]))
    else if IsOneOf(w, HelpWords) then Some(Help)
    else if StartsWithOneOf(LowerJoined(rest, lower), FollowWords) then Some(Follow)
    else None
  }

  /**
   * Each command comes from the first test that passes, in the order the
   * source makes them: tip, balance, deposit, withdraw, help, follow.
   */
  lemma KeywordTests(rest: seq<string>, lower: string -> string)
    requires rest != []
    ensures Keyword(rest, lower) == Some(Tip(rest[1..])) <==> IsOneOf(lower(rest[0]), TipWords)
    ensures Keyword(rest, lower) == Some(Balance) <==>
              && !IsOneOf(lower(rest[0]), TipWords)
              && IsWordOrPrefixed(lower(rest[0]), "balance", "残高")
    ensures Keyword(rest, lower) == Some(Deposit) <==>
              && !IsOneOf(lower(rest[0]), TipWords)
              && !IsWordOrPrefixed(lower(rest[0]), "balance", "残高")
              && IsWordOrPrefixed(lower(rest[0]), "deposit", "入金")
    ensures Keyword(rest, lower) == Some(Withdraw(rest[1..])) <==>
              && !IsOneOf(lower(rest[0]), TipWords)
              && !IsWordOrPrefixed(lower(rest[0]), "balance", "残高")
              && !IsWordOrPrefixed(lower(rest[0]), "deposit", "入金")
              && IsOneOf(lower(rest[0]), WithdrawWords)
    ensures Keyword(rest, lower) == Some(Help) <==>
              && !IsOneOf(lower(rest[0]), TipWords)
              && !IsWordOrPrefixed(lower(rest[0]), "balance", "残高")
              && !IsWordOrPrefixed(lower(rest[0]), "deposit", "入金")
              && !IsOneOf(lower(rest[0]), WithdrawWords)
              && IsOneOf(lower(rest[0]), HelpWords)
    ensures Keyword(rest, lower) == Some(Follow) <==>
              && !IsOneOf(lower(rest[0]), TipWords)
              && !IsWordOrPrefixed(lower(rest[0]), "balance", "残高")
              && !IsWordOrPrefixed(lower(rest[0]), "deposit", "入金")
              && !IsOneOf(lower(rest[0]), WithdrawWords)
              && !IsOneOf(lower(rest[0]), HelpWords)
              && StartsWithOneOf(LowerJoined(rest, lower), FollowWords)
  {
  }

  /** The loop of `get_command` as a recursion: skip to the word after the next mention and test it. */
  function Dispatch(words: seq<string>, mention: string, lower: string -> string): Command
    decreases |words|
  {
    if mention !in words then NoCommand
    else
      var rest := words[FirstIndex(words, mention) + 1..];
      if rest == [] then NoCommand
      else
        match Keyword(rest, lower)
        case Some(c) => c
        case None => Dispatch(rest, mention, lower)
  }

  /** The words of a tweet: `text.split(' ')` after both substitutions. */
  function Words(text: string): seq<string> {
    Split(Normalize(text), ' ')
  }

  /** `get_command` with the bot's screen name `bot`. */
  method GetCommand(text: string, bot: string, lower: string -> string) returns (c: Command)
    ensures c == Dispatch(Words(text), "@" + bot, lower)
  {
    var mention := "@" + bot;
    var words := Split(Normalize(text), ' ');
    while mention in words
      invariant Dispatch(words, mention, lower) == Dispatch(Words(text), mention, lower)
      decreases |words|
    {
      words := words[FirstIndex(words, mention) + 1..];
      if |words| == 0 {
        break;
      }
      var k := Keyword(words, lower);
      if k.Some? {
        return k.value;
      }
    }
    c := NoCommand;
  }

  /** A mention at `i` followed by a word that is a keyword. */
  ghost predicate Hit(words: seq<string>, mention: string, lower: string -> string, i: int) {
    0 <= i < |words| - 1 && words[i] == mention && Keyword(words[i + 1..], lower).Some?
  }

  /**
   * What `get_command` finds: a command exactly when some mention of the
   * bot is followed by a keyword, and then the command of the first such
   * mention; mentions followed by anything else are passed over.
   */
  lemma DispatchFindsFirstHit(words: seq<string>, mention: string, lower: string -> string)
    ensures Dispatch(words, mention, lower) != NoCommand <==> exists i :: Hit(words, mention, lower, i)
    ensures forall i :: Hit(words, mention, lower, i) && (forall j :: 0 <= j < i ==> !Hit(words, mention, lower, j)) ==>
              Dispatch(words, mention, lower) == Keyword(words[i + 1..], lower).value
    ensures Dispatch(words, mention, lower) != NoCommand ==>
              exists i :: Hit(words, mention, lower, i) && Dispatch(words, mention, lower) == Keyword(words[i + 1..], lower).value
  {
    DispatchWitness(words, mention, lower);
    forall i | Hit(words, mention, lower, i) ensures Dispatch(words, mention, lower) != NoCommand {
      DispatchHitFound(words, mention, lower, i);
    }
    forall i | Hit(words, mention, lower, i) && (forall j :: 0 <= j < i ==> !Hit(words, mention, lower, j))
      ensures Dispatch(words, mention, lower) == Keyword(words[i + 1..], lower).value
    {
      DispatchFirst(words, mention, lower, i);
    }
  }

  /** The words after position `f`, indexed from `k`, are the words indexed from `k + f + 1`. */
  lemma SliceShift(words: seq<string>, f: nat, k: nat)
    requires k + f + 1 < |words|
    ensures words[f + 1..][k] == words[k + f + 1]
    ensures words[f + 1..][k + 1..] == words[k + f + 2..]
  {
  }

  /** A command found is the command of some hit. */
  lemma {:induction false} DispatchWitness(words: seq<string>, mention: string, lower: string -> string)
    ensures Dispatch(words, mention, lower) != NoCommand ==>
              exists i :: Hit(words, mention, lower, i) && Dispatch(words, mention, lower) == Keyword(words[i + 1..], lower).value
    decreases |words|
  {
    if mention in words {
      var f := FirstIndex(words, mention);
      var rest := words[f + 1..];
      if rest != [] {
        if Keyword(rest, lower).Some? {
          assert Hit(words, mention, lower, f);
        } else {
          DispatchWitness(rest, mention, lower);
          if Dispatch(rest, mention, lower) != NoCommand {
            var k :| Hit(rest, mention, lower, k) && Dispatch(rest, mention, lower) == Keyword(rest[k + 1..], lower).value;
            SliceShift(words, f, k);
            assert Hit(words, mention, lower, k + f + 1);
          }
        }
      }
    }
  }

  /** Any hit makes the dispatch find a command. */
  lemma {:induction false} DispatchHitFound(words: seq<string>, mention: string, lower: string -> string, i: int)
    requires Hit(words, mention, lower, i)
    ensures Dispatch(words, mention, lower) != NoCommand
    decreases |words|
  {
    assert words[i] == mention;
    NoHitBeforeMention(words, mention, lower);
    var f := FirstIndex(words, mention);
    var rest := words[f + 1..];
    if Keyword(rest, lower).None? {
      var k := i - f - 1;
      SliceShift(words, f, k);
      assert Hit(rest, mention, lower, k);
      DispatchHitFound(rest, mention, lower, k);
    }
  }

  /** The first hit decides the command. */
  lemma {:induction false} DispatchFirst(words: seq<string>, mention: string, lower: string -> string, i: int)
    requires Hit(words, mention, lower, i)
    requires forall j :: 0 <= j < i ==> !Hit(words, mention, lower, j)
    ensures Dispatch(words, mention, lower) == Keyword(words[i + 1..], lower).value
    decreases |words|
  {
    assert words[i] == mention;
    NoHitBeforeMention(words, mention, lower);
    var f := FirstIndex(words, mention);
    var rest := words[f + 1..];
    if Keyword(rest, lower).Some? {
      assert Hit(words, mention, lower, f);
    } else {
      var k := i - f - 1;
      SliceShift(words, f, k);
      assert Hit(rest, mention, lower, k);
      forall j | 0 <= j < k ensures !Hit(rest, mention, lower, j) {
        SliceShift(words, f, j);
        assert !Hit(words, mention, lower, j + f + 1);
      }
      DispatchFirst(rest, mention, lower, k);
    }
  }

  /** No mention comes before the first one, so neither does a hit. */
  lemma NoHitBeforeMention(words: seq<string>, mention: string, lower: string -> string)
    requires mention in words
    ensures forall j :: 0 <= j < FirstIndex(words, mention) ==> !Hit(words, mention, lower, j)
  {
    var f := FirstIndex(words, mention);
    assert forall j :: 0 <= j < f ==> words[j] == words[..f][j];
  }

  /** A tip's parameters are the words after a mention and a tip keyword, as typed. */
  lemma TipParams(words: seq<string>, mention: string, lower: string -> string, params: seq<string>)
    requires Dispatch(words, mention, lower) == Tip(params)
    ensures exists i :: 0 <= i < |words| - 1 && words[i] == mention && IsOneOf(lower(words[i + 1]), TipWords) &&
                        params == words[i + 2..]
  {
    DispatchFindsFirstHit(words, mention, lower);
    var i :| Hit(words, mention, lower, i) && Dispatch(words, mention, lower) == Keyword(words[i + 1..], lower).value;
    assert words[i + 1..][1..] == words[i + 2..];
  }

  /** A withdrawal's parameters are the words after a mention and a withdraw keyword, as typed. */
  lemma WithdrawParams(words: seq<string>, mention: string, lower: string -> string, params: seq<string>)
    requires Dispatch(words, mention, lower) == Withdraw(params)
    ensures exists i :: 0 <= i < |words| - 1 && words[i] == mention && IsOneOf(lower(words[i + 1]), WithdrawWords) &&
                        params == words[i + 2..]
  {
    DispatchFindsFirstHit(words, mention, lower);
    var i :| Hit(words, mention, lower, i) && Dispatch(words, mention, lower) == Keyword(words[i + 1..], lower).value;
    assert words[i + 1..][1..] == words[i + 2..];
  }

  /** Every word `get_command` looks at is free of white space, and only the first and the last can be empty. */
  lemma WordsHaveNoBreaks(text: string)
    ensures var ws := Words(text);
      && (forall i :: 0 <= i < |ws| ==> forall j :: 0 <= j < |ws[i]| ==> !IsBreak(ws[i][j]))
      && (forall i :: 0 < i < |ws| - 1 ==> ws[i] != "")
  {
    NormalizeClean(text);
    WordsOfClean(Normalize(text));
    assert Words(text) == Split(Normalize(text), ' ');
  }
}
