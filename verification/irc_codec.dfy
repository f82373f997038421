/** The IRC line codec of irc.py: `IRC._command` serialises a command into
    the message grammar of section 2.3.1 of RFC 1459 (space-separated
    parameters, the last one after " :"), rewriting the CTCP pseudo-commands
    `CTCP_<T>` and `CTCP_NOTICE_<T>` into '\001'-delimited PRIVMSG and
    NOTICE payloads; `Bot.parse_line` reads a line back into prefix parts,
    command and arguments, decoding a CTCP PRIVMSG on the way.

    The regular expressions the parser splits with are written out as
    functions: `re.split(' +', s)`, `re.split(' +', s, 1)` and
    `re.split(' +:', s, 1)`. Python exceptions are `Err` values. */
module IrcCodec {
  import opened Wrappers
  import opened Text

  /** The exceptions the codec can raise. */
  datatype PyError = ValueError | IndexError

  /** The dictionary `parse_line` returns. */
  datatype Message = Message(
    nick: Option<string>,
    user: Option<string>,
    host: Option<string>,
    command: string,
    args: seq<string>)

  /** The three parts of a message prefix `nick!user@host`. */
  datatype Source = Source(nick: Option<string>, user: Option<string>, host: Option<string>)

  const CtcpNoticePrefix: string := "CTCP_NOTICE_"
  const CtcpPrefix: string := "CTCP_"

  /** The CTCP delimiter, '\001'. */
  const Delim: char := 1 as char

  /** `'\001%s %s\001' % (kind, text)`. */
  function CtcpPayload(kind: string, text: string): string {
    [Delim] + kind + " " + text + [Delim]
  }

  // ---------------------------------------------------------------------
  // IRC._command (irc.py:27-35)
  // ---------------------------------------------------------------------

  /** The argument list `_command` serialises: a CTCP pseudo-command becomes
      a NOTICE (checked first) or a PRIVMSG to the first parameter, carrying
      the second one in a CTCP payload; a missing parameter is an
      IndexError. Any other command is serialised as given. */
  function WireArgs(name: string, params: seq<string>): (r: Result<seq<string>, PyError>)
    ensures r.Ok? ==> |r.value| >= 1
    ensures r.Err? <==> StartsWith(name, CtcpPrefix) && |params| < 2
  {
    if StartsWith(name, CtcpNoticePrefix) then
      if |params| < 2 then Err(IndexError)
      else Ok(["NOTICE", params[0], CtcpPayload(name[|CtcpNoticePrefix|..], params[1])])
    else if StartsWith(name, CtcpPrefix) then
      if |params| < 2 then Err(IndexError)
      else Ok(["PRIVMSG", params[0], CtcpPayload(name[|CtcpPrefix|..], params[1])])
    else Ok([name] + params)
  }

  /** `IRC._command(name, *params)`: every argument but the last joined by
      single spaces, then " :", then the last argument verbatim. */
  function Command(name: string, params: seq<string>): (r: Result<string, PyError>)
    ensures r.Err? <==> StartsWith(name, CtcpPrefix) && |params| < 2
  {
    var args :- WireArgs(name, params);
    Ok(Join(args[..|args| - 1], ' ') + " :" + args[|args| - 1])
  }

  /** `IRC.__getattr__`: `irc.name(*params)` sends the upper-cased name. */
  function Invoke(name: string, params: seq<string>): Result<string, PyError> {
    Command(Upper(name), params)
  }

  // ---------------------------------------------------------------------
  // The splits parse_line uses
  // ---------------------------------------------------------------------

  lemma LStripShortens(s: string)
    requires s != [] && s[0] == ' '
    ensures |LStrip(s, ' ')| < |s|
  {
  }

  /** `re.split(' +', s)`: the pieces between maximal runs of spaces; a
      leading or trailing run gives an empty first or last piece. */
  function SplitRuns(s: string): (parts: seq<string>)
    ensures |parts| >= 1
    ensures forall k :: 0 <= k < |parts| ==> ' ' !in parts[k]
    decreases |s|
  {
    if s == [] then [""]
    else if s[0] == ' ' then
      LStripShortens(s);
      [""] + SplitRuns(LStrip(s, ' '))
    else
      var tail := SplitRuns(s[1..]);
      [[s[0]] + tail[0]] + tail[1..]
  }

  /** `re.split(' +', s, 1)`: the text before the first run of spaces and
      the text after it, or `[s]` when `s` has no space. */
  function SplitFirstRun(s: string): (parts: seq<string>)
    ensures 1 <= |parts| <= 2
    ensures |parts| == 2 <==> ' ' in s
  {
    if ' ' !in s then [s]
    else
      var i := IndexOf(s, ' ');
      [s[..i], LStrip(s[i..], ' ')]
  }

  /** Whether the run of spaces that begins `s` is followed by ':'. */
  predicate ColonAfterRun(s: string) {
    var t := LStrip(s, ' ');
    t != [] && t[0] == ':'
  }

  function Prepend(w: string, split: Option<(string, string)>): Option<(string, string)> {
    match split
    case None => None
    case Some((head, trailing)) => Some((w + head, trailing))
  }

  /** `re.split(' +:', s, 1)`: the regular expression is tried at each
      position in turn; it matches at a position holding a run of spaces
      that ends in ':'. The result is the text before the match and the
      text after it, or None when it matches nowhere. */
  function SplitColon(s: string): Option<(string, string)>
    decreases |s|
  {
    if s == [] then None
    else if s[0] == ' ' && ColonAfterRun(s) then Some(("", LStrip(s, ' ')[1..]))
    else Prepend([s[0]], SplitColon(s[1..]))
  }

  /** The regular expression matches exactly when the line contains " :",
      the test `parse_line` guards the split with. */
  lemma {:induction false} SplitColonFindsSeparator(s: string)
    ensures SplitColon(s).Some? <==> Contains(s, " :")
    decreases |s|
  {
    if s != [] {
      SplitColonFindsSeparator(s[1..]);
      if s[0] == ' ' {
        RunCases(s);
        if |s| >= 2 && s[1] == ' ' && ColonAfterRun(s[1..]) {
          assert SplitColon(s[1..]).Some?;
        }
      }
    }
  }

  /** At a run of spaces, the match either starts with " :" or continues
      into a longer run. */
  lemma RunCases(s: string)
    requires s != [] && s[0] == ' '
    ensures ColonAfterRun(s) <==> StartsWith(s, " :") || (|s| >= 2 && s[1] == ' ' && ColonAfterRun(s[1..]))
  {
    assert LStrip(s, ' ') == LStrip(s[1..], ' ');
    if |s| == 1 {
      assert s[1..] == [];
    } else if s[1] == ' ' {
      assert s[..2][1] == ' ';
    } else {
      LStripStops(s[1..], ' ');
      assert s[..2] == [' ', s[1]];
    }
  }

  /** The tokens after the prefix: `re.split(' +', ...)` of the line, with a
      trailing argument after " :" kept whole (irc.py:117-122). */
  function Tokens(rest: string): (tokens: seq<string>)
    ensures |tokens| >= 1
  {
    match SplitColon(rest)
    case Some((head, trailing)) => SplitRuns(head) + [trailing]
    case None => SplitRuns(rest)
  }

  /** Python's `s[1:-1]`. */
  function Inner(s: string): (r: string)
    ensures |s| >= 2 ==> s == [s[0]] + r + [s[|s| - 1]]
  {
    if |s| >= 2 then s[1..|s| - 1] else ""
  }

  /** Command and arguments (irc.py:117-129): the first token is the
      command, the others the arguments. A PRIVMSG with fewer than two
      arguments, or an empty second one, is an IndexError; one whose second
      argument starts and ends with '\001' is a CTCP request: the command
      becomes `CTCP_` and the first word inside, and the second argument
      the other words. */
  function ParseCommand(rest: string): (r: Result<(string, seq<string>), PyError>)
    ensures r.Err? <==> Tokens(rest)[0] == "PRIVMSG" && (|Tokens(rest)| < 3 || Tokens(rest)[2] == "")
  {
    var tokens := Tokens(rest);
    var command := tokens[0];
    var args := tokens[1..];
    if command != "PRIVMSG" then Ok((command, args))
    else if |args| < 2 || args[1] == "" then Err(IndexError)
    else if args[1][0] == Delim && args[1][|args[1]| - 1] == Delim then
      var parts := Split(Inner(args[1]), ' ');
      Ok((CtcpPrefix + parts[0], args[1 := Join(parts[1..], ' ')]))
    else Ok((command, args))
  }

  /** The prefix split (irc.py:112-115): a line starting with ':' has its
      prefix before the first run of spaces and the rest after it; with no
      space the two-name unpacking fails with a ValueError. */
  function SplitPrefix(line: string): (r: Result<(string, string), PyError>)
    ensures !StartsWith(line, ":") ==> r == Ok(("", line))
    ensures StartsWith(line, ":") ==> (r.Ok? <==> ' ' in line[1..])
    ensures r.Ok? ==> ' ' !in r.value.0
  {
    if StartsWith(line, ":") then
      var pieces := SplitFirstRun(line[1..]);
      if |pieces| == 2 then Ok((pieces[0], pieces[1])) else Err(ValueError)
    else Ok(("", line))
  }

  /** The prefix parts (irc.py:131-137): `nick!user@host` splits at the
      first '!' and the first '@' after it, and a '!' without a later '@'
      is a ValueError; a prefix without '!' is a host; no prefix gives no
      parts. */
  function SplitSource(prefix: string): (r: Result<Source, PyError>)
    ensures prefix == "" ==> r == Ok(Source(None, None, None))
    ensures prefix != "" && '!' !in prefix ==> r == Ok(Source(None, None, Some(prefix)))
    ensures '!' in prefix ==> (r.Ok? <==> '@' in prefix[IndexOf(prefix, '!') + 1..])
    ensures r.Ok? && '!' in prefix ==> r.value.nick.Some? && r.value.user.Some? && r.value.host.Some?
  {
    if prefix != "" && '!' in prefix then
      var i := IndexOf(prefix, '!');
      var rest := prefix[i + 1..];
      if '@' !in rest then Err(ValueError)
      else
        var j := IndexOf(rest, '@');
        Ok(Source(Some(prefix[..i]), Some(rest[..j]), Some(rest[j + 1..])))
    else if prefix != "" then Ok(Source(None, None, Some(prefix)))
    else Ok(Source(None, None, None))
  }

  /** The parts of a full prefix put back together give the prefix, and
      the nick holds no '!' and the user no '@'. */
  lemma SourceRebuildsPrefix(prefix: string)
    requires SplitSource(prefix).Ok? && '!' in prefix
    ensures var src := SplitSource(prefix).value;
      prefix == src.nick.value + "!" + src.user.value + "@" + src.host.value
      && '!' !in src.nick.value && '@' !in src.user.value
  {
    var i := IndexOf(prefix, '!');
    var rest := prefix[i + 1..];
    var j := IndexOf(rest, '@');
    assert SplitSource(prefix).value == Source(Some(prefix[..i]), Some(rest[..j]), Some(rest[j + 1..]));
    SplitAtFirst(prefix, '!');
    SplitAtFirst(rest, '@');
    Rebuild(prefix[..i], rest[..j], rest[j + 1..], rest, prefix);
  }

  lemma Rebuild(nick: string, user: string, host: string, rest: string, prefix: string)
    requires rest == user + "@" + host && prefix == nick + "!" + rest
    ensures prefix == nick + "!" + user + "@" + host
  {
  }

  /** `Bot.parse_line(line)` (irc.py:111-145). The errors come in the order
      the source raises them: the prefix unpacking, then the PRIVMSG
      argument check, then the `user@host` unpacking. */
  function ParseLine(line: string): (r: Result<Message, PyError>)
    ensures r.Ok? && !StartsWith(line, ":") ==> r.value.nick == r.value.user == r.value.host == None
    ensures StartsWith(line, ":") && ' ' !in line[1..] ==> r == Err(ValueError)
  {
    var split :- SplitPrefix(line);
    var parsed :- ParseCommand(split.1);
    var source :- SplitSource(split.0);
    Ok(Message(source.nick, source.user, source.host, parsed.0, parsed.1))
  }

  // ---------------------------------------------------------------------
  // Properties of the splits
  // ---------------------------------------------------------------------

  /** A word of non-spaces glues onto the first piece. */
  lemma {:induction false} SplitRunsWord(w: string, rest: string)
    requires ' ' !in w
    ensures SplitRuns(w + rest) == [w + SplitRuns(rest)[0]] + SplitRuns(rest)[1..]
    decreases |w|
  {
    if w == [] {
      assert w + rest == rest;
      assert w + SplitRuns(rest)[0] == SplitRuns(rest)[0];
      assert SplitRuns(rest) == [SplitRuns(rest)[0]] + SplitRuns(rest)[1..];
    } else {
      assert (w + rest)[0] == w[0] && (w + rest)[1..] == w[1..] + rest;
      SplitRunsWord(w[1..], rest);
      assert [w[0]] + (w[1..] + SplitRuns(rest)[0]) == w + SplitRuns(rest)[0];
    }
  }

  /** A single space before a word is a separator. */
  lemma SplitRunsSpace(s: string)
    requires s != [] && s[0] != ' '
    ensures SplitRuns(" " + s) == [""] + SplitRuns(s)
  {
    assert (" " + s)[1..] == s;
    assert LStrip(" " + s, ' ') == s;
  }

  /** Splitting words joined by single spaces gives the words back, when
      each is non-empty and holds no space. */
  lemma {:induction false} SplitRunsJoin(words: seq<string>)
    requires |words| >= 1
    requires forall k :: 0 <= k < |words| ==> words[k] != "" && ' ' !in words[k]
    ensures SplitRuns(Join(words, ' ')) == words
    decreases |words|
  {
    if |words| == 1 {
      SplitRunsWord(words[0], "");
      assert words[0] + "" == words[0];
    } else {
      var tail := words[1..];
      var rest := Join(tail, ' ');
      assert Join(words, ' ') == words[0] + [' '] + rest;
      SplitRunsJoin(tail);
      JoinHead(tail);
      SplitRunsGlue(words[0], rest, tail);
      assert words == [words[0]] + tail;
    }
  }

  /** One step of `SplitRunsJoin`: a word, a single space, and text that
      splits into `tail`. */
  lemma SplitRunsGlue(w: string, rest: string, tail: seq<string>)
    requires ' ' !in w && rest != [] && rest[0] != ' ' && SplitRuns(rest) == tail
    ensures SplitRuns(w + [' '] + rest) == [w] + tail
  {
    SplitRunsSpace(rest);
    Regroup(w, " ", rest);
    SplitRunsWord(w, " " + rest);
    assert w + "" == w;
  }

  /** A join starts with its first word. */
  lemma JoinHead(words: seq<string>)
    requires |words| >= 1 && words[0] != ""
    ensures Join(words, ' ') != [] && Join(words, ' ')[0] == words[0][0]
  {
  }

  /** A word without spaces passes through the colon split unchanged. */
  lemma {:induction false} SplitColonWord(w: string, rest: string)
    requires ' ' !in w
    ensures SplitColon(w + rest) == Prepend(w, SplitColon(rest))
    decreases |w|
  {
    if w == [] {
      assert w + rest == rest;
      match SplitColon(rest) {
        case None =>
        case Some((h, t)) => assert w + h == h;
      }
    } else {
      assert (w + rest)[0] == w[0] && (w + rest)[1..] == w[1..] + rest;
      SplitColonWord(w[1..], rest);
      match SplitColon(rest) {
        case None =>
        case Some((h, t)) => assert [w[0]] + (w[1..] + h) == w + h;
      }
    }
  }

  /** The trailing marker itself. */
  lemma SplitColonAtMarker(last: string)
    ensures SplitColon(" :" + last) == Some(("", last))
  {
    var s := " :" + last;
    assert s[1..] == ":" + last;
    assert LStrip(s, ' ') == s[1..];
    assert LStrip(s, ' ')[1..] == last;
  }

  /** A single space before a word that does not start with ':' is not the
      trailing marker. */
  lemma SplitColonSpace(x: string)
    requires x != [] && x[0] != ' ' && x[0] != ':'
    ensures SplitColon(" " + x) == Prepend(" ", SplitColon(x))
  {
    assert (" " + x)[1..] == x;
    assert LStrip(" " + x, ' ') == x;
  }

  /** In `' '.join(words) + " :" + last` the colon split finds the marker
      after the words, when no word after the first starts with ':'. */
  lemma {:induction false} SplitColonJoin(words: seq<string>, last: string)
    requires |words| >= 1
    requires forall k :: 0 <= k < |words| ==> words[k] != "" && ' ' !in words[k]
    requires forall k :: 1 <= k < |words| ==> words[k][0] != ':'
    ensures SplitColon(Join(words, ' ') + " :" + last) == Some((Join(words, ' '), last))
    decreases |words|
  {
    SplitColonAtMarker(last);
    if |words| == 1 {
      Regroup(words[0], " :", last);
      SplitColonWord(words[0], " :" + last);
      assert words[0] + "" == words[0];
    } else {
      var rest := Join(words[1..], ' ');
      var x := rest + " :" + last;
      SplitColonJoin(words[1..], last);
      JoinHead(words[1..]);
      SplitColonSpace(x);
      JoinMarker(words[0], rest, last);
      SplitColonWord(words[0], " " + x);
      Regroup(words[0], " ", rest);
    }
  }

  lemma JoinMarker(w: string, rest: string, last: string)
    ensures w + " " + rest + " :" + last == w + (" " + (rest + " :" + last))
  {
  }

  // ---------------------------------------------------------------------
  // Round trips
  // ---------------------------------------------------------------------

  /** A parameter that can stand before the trailing one: non-empty, no
      space, and not starting with ':'. */
  predicate MiddleParam(p: string) {
    p != "" && ' ' !in p && p[0] != ':'
  }

  /** Serialising a command and parsing the line back gives the command and
      its parameters, the last one verbatim whatever it holds: spaces, " :"
      or nothing. The other parameters must be middle parameters, the
      command not a CTCP pseudo-command, and a PRIVMSG must carry a
      non-empty text that is not a CTCP payload. */
  lemma CommandRoundTrip(name: string, params: seq<string>)
    requires MiddleParam(name) && !StartsWith(name, CtcpPrefix)
    requires |params| >= 1
    requires forall k :: 0 <= k < |params| - 1 ==> MiddleParam(params[k])
    requires name == "PRIVMSG" ==>
      |params| >= 2 && params[1] != ""
      && !(params[1][0] == Delim && params[1][|params[1]| - 1] == Delim)
    ensures Command(name, params).Ok?
    ensures ParseLine(Command(name, params).value) == Ok(Message(None, None, None, name, params))
  {
    var words, last := CommandParts(name, params);
    var line := Join(words, ' ') + " :" + last;
    TokensOfLine(words, last);
    ParseCommandPlain(line, name, params);
    ParseUnprefixed(line);
  }

  /** The words and trailing argument a plain command is serialised from. */
  lemma CommandParts(name: string, params: seq<string>) returns (words: seq<string>, last: string)
    requires MiddleParam(name) && !StartsWith(name, CtcpPrefix)
    requires |params| >= 1
    requires forall k :: 0 <= k < |params| - 1 ==> MiddleParam(params[k])
    ensures Command(name, params) == Ok(Join(words, ' ') + " :" + last)
    ensures words + [last] == [name] + params && |words| >= 1 && words[0] == name
    ensures forall k :: 0 <= k < |words| ==> MiddleParam(words[k])
  {
    var args := [name] + params;
    words, last := args[..|args| - 1], args[|args| - 1];
    assert WireArgs(name, params) == Ok(args);
    forall k | 0 <= k < |words|
      ensures MiddleParam(words[k])
    {
      if k > 0 {
        assert words[k] == params[k - 1];
      }
    }
    assert words + [last] == args;
  }

  /** The tokens of `' '.join(words) + " :" + last`, which starts with the
      first word. */
  lemma TokensOfLine(words: seq<string>, last: string)
    requires |words| >= 1
    requires forall k :: 0 <= k < |words| ==> MiddleParam(words[k])
    ensures Tokens(Join(words, ' ') + " :" + last) == words + [last]
    ensures var line := Join(words, ' ') + " :" + last;
      line != [] && words[0] != [] && line[0] == words[0][0]
  {
    SplitColonJoin(words, last);
    SplitRunsJoin(words);
    JoinHead(words);
  }

  /** The parse of a line whose tokens are a command and its arguments. */
  lemma ParseCommandPlain(rest: string, name: string, params: seq<string>)
    requires Tokens(rest) == [name] + params
    requires name == "PRIVMSG" ==>
      |params| >= 2 && params[1] != ""
      && !(params[1][0] == Delim && params[1][|params[1]| - 1] == Delim)
    ensures ParseCommand(rest) == Ok((name, params))
  {
    assert ([name] + params)[1..] == params;
  }

  /** A line without a prefix has no prefix parts. */
  lemma ParseUnprefixed(line: string)
    requires line != [] && line[0] != ':' && ParseCommand(line).Ok?
    ensures ParseLine(line) == Ok(Message(None, None, None, ParseCommand(line).value.0, ParseCommand(line).value.1))
  {
    assert !StartsWith(line, ":");
  }

  lemma JoinTwo(a: string, b: string)
    ensures Join([a, b], ' ') == a + " " + b
  {
    assert [a, b][1..] == [b];
  }

  /** The tokens of `a b :c`. */
  lemma ThreeTokens(a: string, b: string, c: string)
    requires MiddleParam(a) && MiddleParam(b)
    ensures Tokens(a + " " + b + " :" + c) == [a, b, c]
    ensures (a + " " + b + " :" + c)[0] == a[0]
  {
    TokensOfLine([a, b], c);
    JoinTwo(a, b);
    assert [a, b] + [c] == [a, b, c];
  }

  /** A command whose wire arguments are three. */
  lemma CommandOfThree(name: string, params: seq<string>, a: string, b: string, c: string)
    requires WireArgs(name, params) == Ok([a, b, c])
    ensures Command(name, params) == Ok(a + " " + b + " :" + c)
  {
    assert [a, b, c][..2] == [a, b];
    JoinTwo(a, b);
  }

  /** The CTCP decoding undoes the CTCP encoding: `CTCP_<T>` to a target
      becomes a PRIVMSG with a '\001' payload, which parses back to the
      pseudo-command and the target and text, when `T` is one word. */
  lemma CtcpRoundTrip(kind: string, target: string, text: string)
    requires ' ' !in kind && !StartsWith(CtcpPrefix + kind, CtcpNoticePrefix)
    requires MiddleParam(target)
    ensures Command(CtcpPrefix + kind, [target, text])
         == Ok("PRIVMSG" + " " + target + " :" + CtcpPayload(kind, text))
    ensures ParseLine("PRIVMSG" + " " + target + " :" + CtcpPayload(kind, text))
         == Ok(Message(None, None, None, CtcpPrefix + kind, [target, text]))
  {
    var payload := CtcpPayload(kind, text);
    CtcpWire(kind, target, text);
    CommandOfThree(CtcpPrefix + kind, [target, text], "PRIVMSG", target, payload);
    var line := "PRIVMSG" + " " + target + " :" + payload;
    assert MiddleParam("PRIVMSG");
    ThreeTokens("PRIVMSG", target, payload);
    ParseCommandCtcp(line, target, kind, text);
    ParseUnprefixed(line);
  }

  lemma CtcpWire(kind: string, target: string, text: string)
    requires !StartsWith(CtcpPrefix + kind, CtcpNoticePrefix)
    ensures WireArgs(CtcpPrefix + kind, [target, text]) == Ok(["PRIVMSG", target, CtcpPayload(kind, text)])
  {
    var name := CtcpPrefix + kind;
    assert name[..|CtcpPrefix|] == CtcpPrefix;
    assert name[|CtcpPrefix|..] == kind;
  }

  /** The parse of a CTCP request line. */
  lemma ParseCommandCtcp(rest: string, target: string, kind: string, text: string)
    requires Tokens(rest) == ["PRIVMSG", target, CtcpPayload(kind, text)]
    requires ' ' !in kind
    ensures ParseCommand(rest) == Ok((CtcpPrefix + kind, [target, text]))
  {
    var payload := CtcpPayload(kind, text);
    CtcpDecode(kind, text);
    assert ["PRIVMSG", target, payload][1..] == [target, payload];
    assert [target, payload][1 := text] == [target, text];
  }

  /** Inside the payload, the kind is the first word and the text the rest. */
  lemma CtcpDecode(kind: string, text: string)
    requires ' ' !in kind
    ensures var payload := CtcpPayload(kind, text);
      |payload| >= 2 && payload[0] == Delim && payload[|payload| - 1] == Delim
      && Split(Inner(payload), ' ')[0] == kind
      && Join(Split(Inner(payload), ' ')[1..], ' ') == text
  {
    var payload := CtcpPayload(kind, text);
    assert payload == [Delim] + (kind + " " + text) + [Delim];
    assert Inner(payload) == kind + " " + text;
    SplitAtSeparator(kind, text, ' ');
    JoinSplit(text, ' ');
  }

  /** `CTCP_NOTICE_<T>` is checked before `CTCP_`: it becomes a NOTICE, and
      the parser leaves a NOTICE's payload encoded. */
  lemma CtcpNoticeIsNotice(kind: string, target: string, text: string)
    requires MiddleParam(target)
    ensures Command(CtcpNoticePrefix + kind, [target, text])
         == Ok("NOTICE" + " " + target + " :" + CtcpPayload(kind, text))
    ensures ParseLine("NOTICE" + " " + target + " :" + CtcpPayload(kind, text))
         == Ok(Message(None, None, None, "NOTICE", [target, CtcpPayload(kind, text)]))
  {
    var payload := CtcpPayload(kind, text);
    NoticeWire(kind, target, text);
    CommandOfThree(CtcpNoticePrefix + kind, [target, text], "NOTICE", target, payload);
    var line := "NOTICE" + " " + target + " :" + payload;
    assert MiddleParam("NOTICE");
    ThreeTokens("NOTICE", target, payload);
    ParseCommandPlain(line, "NOTICE", [target, payload]);
    ParseUnprefixed(line);
  }

  lemma NoticeWire(kind: string, target: string, text: string)
    ensures WireArgs(CtcpNoticePrefix + kind, [target, text]) == Ok(["NOTICE", target, CtcpPayload(kind, text)])
  {
    var name := CtcpNoticePrefix + kind;
    assert name[..|CtcpNoticePrefix|] == CtcpNoticePrefix;
    assert name[|CtcpNoticePrefix|..] == kind;
  }

  /** A prefix of the form `nick!user@host` decomposes into its parts. */
  lemma SourceOfFullPrefix(nick: string, user: string, host: string)
    requires '!' !in nick && '@' !in user
    ensures SplitSource(nick + "!" + user + "@" + host) == Ok(Source(Some(nick), Some(user), Some(host)))
  {
    var prefix := nick + "!" + user + "@" + host;
    assert prefix[|nick|] == '!';
    assert prefix[..|nick|] == nick;
    var rest := prefix[|nick| + 1..];
    assert rest == user + "@" + host;
    assert rest[|user|] == '@' && rest[..|user|] == user;
  }

  /** The text between the leading ':' and the first run of spaces is the
      prefix, and the parse of the rest is unaffected by it. */
  lemma PrefixedLine(prefix: string, rest: string)
    requires ' ' !in prefix && (rest == [] || rest[0] != ' ')
    ensures SplitPrefix(":" + prefix + " " + rest) == Ok((prefix, rest))
  {
    var line := ":" + prefix + " " + rest;
    assert line[..1] == ":" && line[1..] == prefix + [' '] + rest;
    SplitFirstRunAt(prefix, rest);
  }

  /** A word, one space, and text that does not start with a space split
      into the word and the text. */
  lemma SplitFirstRunAt(w: string, rest: string)
    requires ' ' !in w && (rest == [] || rest[0] != ' ')
    ensures SplitFirstRun(w + [' '] + rest) == [w, rest]
  {
    var s := w + [' '] + rest;
    IndexOfAfter(w, ' ', rest);
    assert s[|w|] == ' ';
    assert s[|w|..] == [' '] + rest;
    LStripSkips(' ', rest);
    LStripStops(rest, ' ');
  }

  /** A prefixed line parses as the rest of it does, with the parts of the
      prefix. */
  lemma ParseWithSource(prefix: string, rest: string)
    requires ' ' !in prefix && (rest == [] || rest[0] != ' ')
    requires ParseCommand(rest).Ok? && SplitSource(prefix).Ok?
    ensures var src := SplitSource(prefix).value;
      ParseLine(":" + prefix + " " + rest)
      == Ok(Message(src.nick, src.user, src.host, ParseCommand(rest).value.0, ParseCommand(rest).value.1))
  {
    PrefixedLine(prefix, rest);
  }

  /** A line from `nick!user@host` carries the three parts. */
  lemma ParseFromUser(nick: string, user: string, host: string, rest: string)
    requires '!' !in nick && '@' !in user
    requires ' ' !in nick + "!" + user + "@" + host
    requires (rest == [] || rest[0] != ' ') && ParseCommand(rest).Ok?
    ensures ParseLine(":" + (nick + "!" + user + "@" + host) + " " + rest)
         == Ok(Message(Some(nick), Some(user), Some(host), ParseCommand(rest).value.0, ParseCommand(rest).value.1))
  {
    SourceOfFullPrefix(nick, user, host);
    ParseWithSource(nick + "!" + user + "@" + host, rest);
  }

  /** A line from a server name without '!' carries only the host. */
  lemma ParseFromServer(server: string, rest: string)
    requires server != "" && '!' !in server && ' ' !in server
    requires (rest == [] || rest[0] != ' ') && ParseCommand(rest).Ok?
    ensures ParseLine(":" + server + " " + rest)
         == Ok(Message(None, None, Some(server), ParseCommand(rest).value.0, ParseCommand(rest).value.1))
  {
    ParseWithSource(server, rest);
  }

  /** A '!' without a later '@' makes the parse fail with a ValueError. */
  lemma ParseMissingHost(nick: string, user: string, rest: string)
    requires '!' !in nick && '@' !in user && ' ' !in nick + "!" + user
    requires (rest == [] || rest[0] != ' ') && ParseCommand(rest).Ok?
    ensures ParseLine(":" + (nick + "!" + user) + " " + rest) == Err(ValueError)
  {
    var prefix := nick + "!" + user;
    IndexOfAfter(nick, '!', user);
    assert SplitSource(prefix) == Err(ValueError);
    PrefixedLine(prefix, rest);
  }
}
