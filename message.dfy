/**
 * `get_message`: the reply text with the given screen names mentioned in
 * front, a blank line, and four random ASCII letters that keep Twitter
 * from refusing a repeated status.  The letters are a parameter.
 */
module Messages {
  import opened Text

  predicate IsAsciiLetter(c: char) {
    ('a' <= c <= 'z') || ('A' <= c <= 'Z')
  }

  /** What `random.choice(string.ascii_letters)` four times can produce. */
  predicate IsNonce(nonce: string) {
    |nonce| == 4 && forall i :: 0 <= i < |nonce| ==> IsAsciiLetter(nonce[i])
  }

  /** `@s1 @s2 ... `: each screen name with an `@` in front and a space after, in argument order. */
  function Mentions(names: seq<string>): string {
    if names == [] then "" else "@" + names[0] + " " + Mentions(names[1..])
  }

  /** The reply for `text` mentioning `names`. */
  function Message(text: string, names: seq<string>, nonce: string): string {
    Join([Mentions(names) + text, "", nonce], '\n')
  }

  /** `get_message`: prepend the mentions from the last name to the first, then add the blank line and the letters. */
  method GetMessage(text: string, names: seq<string>, nonce: string) returns (m: string)
    requires IsNonce(nonce)
    ensures m == Message(text, names, nonce)
  {
    var t := text;
    for k := 0 to |names|
      invariant t == Mentions(names[|names| - k..]) + text
    {
      var name := names[|names| - 1 - k];
      assert names[|names| - (k + 1)..] == [name] + names[|names| - k..];
      t := "@" + name + " " + t;
    }
    assert names[0..] == names;
    m := Join([t, "", nonce], '\n');
  }

  /** The reply is the mentions, the text, a blank line and the letters, in that order. */
  lemma MessageShape(text: string, names: seq<string>, nonce: string)
    ensures Message(text, names, nonce) == Mentions(names) + text + "\n\n" + nonce
  {
    var lines := [Mentions(names) + text, "", nonce];
    assert lines[1..] == ["", nonce] && lines[1..][1..] == [nonce];
    assert Join(lines[1..], '\n') == "\n" + nonce;
  }

  /** A reply ends with the blank line and the letters, and starts with its first mention. */
  lemma MessageEnds(text: string, names: seq<string>, nonce: string)
    ensures var m := Message(text, names, nonce);
      && EndsWith(m, "\n\n" + nonce)
      && (names != [] ==> StartsWith(m, "@" + names[0] + " "))
  {
    MessageShape(text, names, nonce);
    var m := Message(text, names, nonce);
    var head := Mentions(names) + text;
    assert m == head + ("\n\n" + nonce);
    if names != [] {
      var first := "@" + names[0] + " ";
      assert m == first + (Mentions(names[1..]) + text + "\n\n" + nonce);
      assert m[..|first|] == first;
    }
  }

  /** The last character of a reply before its blank line is the last character of its text. */
  lemma MessageLastChar(text: string, names: seq<string>, nonce: string)
    requires text != []
    ensures |Message(text, names, nonce)| == |Mentions(names)| + |text| + 2 + |nonce|
    ensures var m := Message(text, names, nonce); m[|m| - |nonce| - 3] == text[|text| - 1]
  {
    MessageShape(text, names, nonce);
    var m := Message(text, names, nonce);
    var head := Mentions(names) + text;
    assert m == head + ("\n\n" + nonce);
    assert m[|head| - 1] == head[|head| - 1];
  }

  /** Two replies with the same mentions and letters are the same reply only for the same text. */
  lemma MessageInjective(t1: string, t2: string, names: seq<string>, nonce: string)
    requires Message(t1, names, nonce) == Message(t2, names, nonce)
    ensures t1 == t2
  {
    MessageShape(t1, names, nonce);
    MessageShape(t2, names, nonce);
    var p := Mentions(names);
    var m := Message(t1, names, nonce);
    assert |t1| == |t2|;
    assert t1 == m[|p|..|p| + |t1|];
    assert t2 == m[|p|..|p| + |t2|];
  }

  /** The mentions, each as a word with its `@`. */
  function Handles(names: seq<string>): (r: seq<string>)
    ensures |r| == |names|
    ensures forall i :: 0 <= i < |names| ==> r[i] == "@" + names[i]
  {
    seq(|names|, i requires 0 <= i < |names| => "@" + names[i])
  }

  lemma {:induction false} MentionsJoined(names: seq<string>)
    ensures Mentions(names) == Join(Handles(names) + [""], ' ')
  {
    if names != [] {
      MentionsJoined(names[1..]);
      assert Handles(names) + [""] == [Handles(names)[0]] + (Handles(names[1..]) + [""]);
    }
  }

  /**
   * The mentions read back as words: split on spaces they are exactly the
   * screen names with their `@`, in argument order, and then the empty
   * word before the text, as long as no screen name holds a space.
   */
  lemma MentionsInOrder(names: seq<string>)
    requires forall i :: 0 <= i < |names| ==> ' ' !in names[i]
    ensures Split(Mentions(names), ' ') == Handles(names) + [""]
  {
    MentionsJoined(names);
    var ws := Handles(names) + [""];
    forall i | 0 <= i < |ws| ensures ' ' !in ws[i] {
      if i < |names| {
        assert ws[i] == "@" + names[i];
      }
    }
    SplitJoin(ws, ' ');
  }
}
