/** How the `messages.upsert` handler reads an incoming message and
    classifies its text, in the fixed order the handler tests it. */
module Commands {
  import opened Wrappers
  import opened JsText

  /** The text fields of `msg.message`; a missing field is "". */
  datatype Content = Content(conversation: string, extendedText: string)

  /** The first message of an upsert event: whether the bot itself sent it,
      its content (`None` when `msg.message` is missing) and `pushName`. */
  datatype Incoming = Incoming(fromMe: bool, content: Option<Content>, pushName: string)

  /** The sender's display name, or "User" when it is empty. */
  function SenderName(pushName: string): (r: string)
    ensures r != ""
    ensures pushName != "" ==> r == pushName
  {
    if pushName != "" then pushName else "User"
  }

  /** The plain text if non-empty, else the extended text, else "". */
  function TextOf(c: Content): string
  {
    if c.conversation != "" then c.conversation else c.extendedText
  }

  /** The text lower-cased, then stripped of surrounding whitespace. */
  function Normalize(text: string): (lower: string)
    ensures IsTrimOf(lower, ToLower(text))
    ensures LowerCased(lower)
  {
    var t := Trim(ToLower(text));
    assert forall i :: 0 <= i < |t| ==> t[i] in ToLower(text);
    t
  }

  datatype Command =
    | Ping
    | Help
    | StartPoll(arg: string)
    | EndPoll(arg: string)
    | ShowPoll(arg: string)
    | Cancel
    | FreeText

  /** The second space-separated field, "" when there is none. */
  function Arg(lower: string): (a: string)
    ensures ' ' !in a
  {
    var parts := Split(lower, ' ');
    if |parts| > 1 then
      assert parts[1] in parts;
      parts[1]
    else ""
  }

  /** The handler's tests in order: exact `!ping` and `!help`, then the
      prefixes `!startpoll`, `!endpoll` and `!showpoll`, then exact `!cancel`;
      anything else is free text. */
  function Classify(lower: string): Command
  {
    if lower == "!ping" then Ping
    else if lower == "!help" then Help
    else if "!startpoll" <= lower then StartPoll(Arg(lower))
    else if "!endpoll" <= lower then EndPoll(Arg(lower))
    else if "!showpoll" <= lower then ShowPoll(Arg(lower))
    else if lower == "!cancel" then Cancel
    else FreeText
  }

  lemma SplitOne(cmd: string, name: string)
    requires ' ' !in cmd && ' ' !in name
    ensures Split(cmd + " " + name, ' ') == [cmd, name]
  {
    SplitField(cmd, ' ', name);
    SplitNoSep(name, ' ');
    assert cmd + " " + name == cmd + [' '] + name;
  }

  lemma SplitTwo(cmd: string, name: string, rest: string)
    requires ' ' !in cmd && ' ' !in name
    ensures Split(cmd + " " + name + " " + rest, ' ') == [cmd, name] + Split(rest, ' ')
  {
    SplitField(cmd, ' ', name + " " + rest);
    SplitField(name, ' ', rest);
    assert cmd + " " + name + " " + rest == cmd + [' '] + (name + [' '] + rest);
  }

  /** The argument is the word after the first single space; a command
      with no space has none. */
  lemma ArgOf(cmd: string, name: string, rest: string)
    requires ' ' !in cmd && ' ' !in name
    ensures Arg(cmd) == ""
    ensures Arg(cmd + " " + name) == name
    ensures Arg(cmd + " " + name + " " + rest) == name
  {
    SplitNoSep(cmd, ' ');
    SplitOne(cmd, name);
    SplitTwo(cmd, name, rest);
  }

  /** The three poll commands match by prefix, so trailing text never
      turns them into free text. */
  lemma PollCommandsByPrefix(t: string)
    ensures Classify("!startpoll" + t).StartPoll?
    ensures Classify("!endpoll" + t).EndPoll?
    ensures Classify("!showpoll" + t).ShowPoll?
  {
    var s, e, w := "!startpoll" + t, "!endpoll" + t, "!showpoll" + t;
    assert "!startpoll" <= s;
    assert e[1] == 'e' && w[1] == 's' && w[2] == 'h';
    assert "!endpoll" <= e;
    assert "!showpoll" <= w;
  }

  /** A poll command on its own carries no argument. */
  lemma ClassifyBareCommand(cmd: string)
    requires cmd == "!startpoll" || cmd == "!endpoll" || cmd == "!showpoll"
    ensures cmd == "!startpoll" ==> Classify(cmd) == StartPoll("")
    ensures cmd == "!endpoll" ==> Classify(cmd) == EndPoll("")
    ensures cmd == "!showpoll" ==> Classify(cmd) == ShowPoll("")
  {
    ArgOf(cmd, "", "");
    PollCommandsByPrefix("");
    assert cmd + "" == cmd;
  }

  /** A poll command followed by a space and a word carries that word. */
  lemma ClassifyPollCommand(cmd: string, name: string)
    requires cmd == "!startpoll" || cmd == "!endpoll" || cmd == "!showpoll"
    requires ' ' !in name
    ensures cmd == "!startpoll" ==> Classify(cmd + " " + name) == StartPoll(name)
    ensures cmd == "!endpoll" ==> Classify(cmd + " " + name) == EndPoll(name)
    ensures cmd == "!showpoll" ==> Classify(cmd + " " + name) == ShowPoll(name)
  {
    var s := cmd + " " + name;
    ArgOf(cmd, name, "");
    assert |s| > 5 && s[..|cmd|] == cmd;
    if cmd == "!startpoll" {
      assert "!startpoll" <= s;
    } else if cmd == "!endpoll" {
      assert s[1] == 'e' && "!endpoll" <= s;
    } else {
      assert s[1] == 's' && s[2] == 'h' && "!showpoll" <= s;
    }
  }

  lemma NormalizeIdentity(s: string)
    requires LowerCased(s)
    requires s == [] || (!IsSpace(s[0]) && !IsSpace(s[|s| - 1]))
    ensures Normalize(s) == s
  {
    ToLowerIdentity(s);
    TrimIdentity(s);
  }

  /** Text that does not start with `!`, the empty text included, goes to
      the order parser. */
  lemma FreeTextClassified(s: string)
    requires s == [] || s[0] != '!'
    ensures Classify(s) == FreeText
  {
    assert !("!startpoll" <= s) && !("!endpoll" <= s) && !("!showpoll" <= s);
  }

  /** `!startpoll`, a space and a name with no space, no upper-case letter
      and no trailing whitespace survive normalisation unchanged and
      classify as a start of that name. */
  lemma StartCommandText(poll: string)
    requires poll != [] && ' ' !in poll && !IsSpace(poll[|poll| - 1]) && LowerCased(poll)
    ensures Normalize("!startpoll " + poll) == "!startpoll " + poll
    ensures Classify("!startpoll " + poll) == StartPoll(poll)
  {
    var text := "!startpoll " + poll;
    assert LowerCased(text) by {
      forall i | 0 <= i < |text| ensures !IsUpper(text[i]) {
        if i >= 11 { assert text[i] == poll[i - 11]; }
      }
    }
    assert text[|text| - 1] == poll[|poll| - 1];
    NormalizeIdentity(text);
    ClassifyPollCommand("!startpoll", poll);
    assert text == "!startpoll" + " " + poll;
  }
}
