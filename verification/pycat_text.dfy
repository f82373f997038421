/** The pure text handling of pycat.py: the log-escaping `readable`, the
    command-line `parse_host_port`, the `key = value` line of a `--config`
    reply, the target resolver `parse_targets` and the prefix routing of
    `send_message`. */
module PyCatText {
  import opened Wrappers
  import opened Text

  // ---------------------------------------------------------------------
  // readable (pycat.py:55-67)
  // ---------------------------------------------------------------------

  function HexDigit(d: nat): (ch: char)
    requires d < 16
    ensures '0' <= ch <= '9' || 'A' <= ch <= 'F'
  {
    if d < 10 then ('0' as int + d) as char else ('A' as int + d - 10) as char
  }

  predicate IsControl(ch: char) {
    (ch as int) < 32
  }

  /** How one character is logged: a control character becomes `\xNN`
      with two upper-case hex digits, anything else stays. */
  function Escape(ch: char): string
  {
    if IsControl(ch) then ['\\', 'x', HexDigit(ch as int / 16), HexDigit(ch as int % 16)]
    else [ch]
  }

  /** The logged form of a whole string. */
  function Escaped(s: string): string
  {
    if s == [] then "" else Escape(s[0]) + Escaped(s[1..])
  }

  /** Escaping works character by character, so it distributes over
      concatenation. */
  lemma {:induction false} EscapedConcat(a: string, b: string)
    ensures Escaped(a + b) == Escaped(a) + Escaped(b)
    decreases |a|
  {
    if a == [] {
      assert a + b == b;
    } else {
      assert (a + b)[0] == a[0] && (a + b)[1..] == a[1..] + b;
      EscapedConcat(a[1..], b);
    }
  }

  /** `readable`: the accumulator loop of the source, proved to build the
      escaped form. */
  method Readable(s: string) returns (r: string)
    ensures r == Escaped(s)
  {
    r := "";
    for i := 0 to |s|
      invariant r == Escaped(s[..i])
    {
      if (s[i] as int) < 32 {
        r := r + ['\\', 'x', HexDigit(s[i] as int / 16), HexDigit(s[i] as int % 16)];
      } else {
        r := r + [s[i]];
      }
      assert s[..i + 1] == s[..i] + [s[i]];
      EscapedConcat(s[..i], [s[i]]);
    }
    assert s[..|s|] == s;
  }

  function ControlCount(s: string): nat
  {
    if s == [] then 0 else (if IsControl(s[0]) then 1 else 0) + ControlCount(s[1..])
  }

  /** The logged form holds no control character, and each control
      character of the input costs three extra characters. */
  lemma {:induction false} EscapedIsPrintable(s: string)
    ensures forall k :: 0 <= k < |Escaped(s)| ==> !IsControl(Escaped(s)[k])
    ensures |Escaped(s)| == |s| + 3 * ControlCount(s)
    decreases |s|
  {
    if s != [] {
      EscapedIsPrintable(s[1..]);
      var head, tail := Escape(s[0]), Escaped(s[1..]);
      assert Escaped(s) == head + tail;
      forall k | 0 <= k < |head + tail| ensures !IsControl((head + tail)[k]) {
        if k >= |head| {
          assert (head + tail)[k] == tail[k - |head|];
        }
      }
    }
  }

  /** A string is logged unchanged exactly when it holds no control
      character. */
  lemma EscapedUnchangedIff(s: string)
    ensures Escaped(s) == s <==> forall k :: 0 <= k < |s| ==> !IsControl(s[k])
  {
    EscapedIsPrintable(s);
    if forall k :: 0 <= k < |s| ==> !IsControl(s[k]) {
      NoControlCount(s);
    } else {
      var k :| 0 <= k < |s| && IsControl(s[k]);
      assert ControlCount(s) > 0 by {
        ControlCountPositive(s, k);
      }
    }
  }

  lemma {:induction false} ControlCountPositive(s: string, k: nat)
    requires k < |s| && IsControl(s[k])
    ensures ControlCount(s) > 0
    decreases k
  {
    if k > 0 {
      ControlCountPositive(s[1..], k - 1);
    }
  }

  lemma {:induction false} NoControlCount(s: string)
    requires forall k :: 0 <= k < |s| ==> !IsControl(s[k])
    ensures Escaped(s) == s
    decreases |s|
  {
    if s != [] {
      assert !IsControl(s[0]);
      NoControlCount(s[1..]);
      assert [s[0]] + s[1..] == s;
    }
  }

  // ---------------------------------------------------------------------
  // parse_host_port (pycat.py:479-492)
  // ---------------------------------------------------------------------

  /** The second element of the returned pair: `int(port)`, `-1` for a port
      that is not all digits, or `''` when there is no port. */
  datatype PortField = Port(n: int) | NoPort

  /** `host, port = string.split(':')` raises ValueError when the string holds
      more than one ':'. */
  datatype HostPortError = TooManyColons

  predicate IsDigit(ch: char) {
    '0' <= ch <= '9'
  }

  /** Python's `str.isdigit()` on a byte string. */
  predicate IsDigits(s: string) {
    s != [] && forall k :: 0 <= k < |s| ==> IsDigit(s[k])
  }

  /** Python's `int(s)` on a string of decimal digits. */
  function DecimalValue(s: string): (n: nat)
    requires forall k :: 0 <= k < |s| ==> IsDigit(s[k])
    decreases |s|
  {
    if s == [] then 0
    else
      assert IsDigit(s[|s| - 1]);
      10 * DecimalValue(s[..|s| - 1]) + (s[|s| - 1] as int - '0' as int)
  }

  /** The decimal spelling of `n`, as `str(n)` writes it. */
  function DecimalString(n: nat): (s: string)
    ensures IsDigits(s)
  {
    if n < 10 then [('0' as int + n) as char]
    else DecimalString(n / 10) + [('0' as int + n % 10) as char]
  }

  lemma {:induction false} DecimalRoundTrip(n: nat)
    ensures DecimalValue(DecimalString(n)) == n
  {
    if n >= 10 {
      var s := DecimalString(n);
      DecimalRoundTrip(n / 10);
      assert s[..|s| - 1] == DecimalString(n / 10);
    }
  }

  function PortOf(port: string): PortField
  {
    if port != "" && IsDigits(port) then Port(DecimalValue(port))
    else if port != "" then Port(-1)
    else NoPort
  }

  /** `parse_host_port(string, default)`. */
  function ParseHostPort(s: string, default: string): Result<(string, PortField), HostPortError>
  {
    if ':' in s then
      var parts := Split(s, ':');
      if |parts| == 2 then Ok((parts[0], PortOf(parts[1]))) else Err(TooManyColons)
    else if default == "port" then Ok(("", PortOf(s)))
    else Ok((s, NoPort))
  }

  /** `host:port` with a decimal port parses back to the host and the port
      number, whatever the default. */
  lemma HostPortRoundTrip(host: string, port: nat, default: string)
    requires ':' !in host
    ensures ParseHostPort(host + ":" + DecimalString(port), default) == Ok((host, Port(port)))
  {
    var digits := DecimalString(port);
    SplitJoin([host, digits], ':');
    assert Join([host, digits], ':') == host + ":" + digits;
    assert (host + ":" + digits)[|host|] == ':';
    DecimalRoundTrip(port);
  }

  /** A port that is not all digits is reported as -1, which no digit string
      can produce. */
  lemma HostPortInvalid(host: string, port: string, default: string)
    requires ':' !in host && ':' !in port
    requires port != "" && !IsDigits(port)
    ensures ParseHostPort(host + ":" + port, default) == Ok((host, Port(-1)))
  {
    SplitJoin([host, port], ':');
    assert Join([host, port], ':') == host + ":" + port;
    assert (host + ":" + port)[|host|] == ':';
  }

  /** `int(port)` for a port of digits, -1 for any other non-empty port,
      and the empty string (no port) for an empty one. */
  lemma PortOfCases(port: string)
    ensures port == "" <==> PortOf(port) == NoPort
    ensures IsDigits(port) ==> PortOf(port) == Port(DecimalValue(port))
    ensures port != "" && !IsDigits(port) ==> PortOf(port) == Port(-1)
    ensures PortOf(port).Port? && PortOf(port).n >= 0 ==> IsDigits(port)
  {
  }

  /** Without a colon the whole string is the port when `default` is
      "port", and the host with no port otherwise. */
  lemma HostPortWithoutColon(s: string, default: string)
    requires ':' !in s
    ensures default == "port" ==> ParseHostPort(s, default) == Ok(("", PortOf(s)))
    ensures default == "port" ==>
      (ParseHostPort(s, default).value.0 == ""
       && (s == "" ==> ParseHostPort(s, default).value.1 == NoPort)
       && (IsDigits(s) ==> ParseHostPort(s, default).value.1 == Port(DecimalValue(s)))
       && (s != "" && !IsDigits(s) ==> ParseHostPort(s, default).value.1 == Port(-1)))
    ensures default != "port" ==> ParseHostPort(s, default) == Ok((s, NoPort))
  {
  }

  /** More than one colon is the ValueError of the tuple unpacking. */
  lemma HostPortTooManyColons(a: string, b: string, c: string, default: string)
    requires ':' !in a && ':' !in b
    ensures ParseHostPort(a + ":" + b + ":" + c, default) == Err(TooManyColons)
  {
    var s := a + ":" + b + ":" + c;
    assert s == a + [':'] + (b + [':'] + c);
    SplitAtSeparator(a, b + [':'] + c, ':');
    SplitAtSeparator(b, c, ':');
    assert s[|a|] == ':';
  }

  // ---------------------------------------------------------------------
  // the `key = value` reply line of handle_config (pycat.py:263-279)
  // ---------------------------------------------------------------------

  /** `\w` of Python's `re` without the UNICODE flag. */
  predicate IsWordChar(ch: char) {
    'a' <= ch <= 'z' || 'A' <= ch <= 'Z' || '0' <= ch <= '9' || ch == '_'
  }

  /** `\s` of Python's `re` without the UNICODE flag. */
  predicate IsReSpace(ch: char) {
    ch == ' ' || ch == '\t' || ch == '\n' || ch == '\r' || ch == '\U{B}' || ch == '\U{C}'
  }

  /** How many leading characters of `s` satisfy `\w`. */
  function WordRun(s: string): (n: nat)
    ensures n <= |s|
    ensures forall k :: 0 <= k < n ==> IsWordChar(s[k])
    ensures n < |s| ==> !IsWordChar(s[n])
  {
    if s != [] && IsWordChar(s[0]) then 1 + WordRun(s[1..]) else 0
  }

  /** How many leading characters of `s` satisfy `\s`. */
  function SpaceRun(s: string): (n: nat)
    ensures n <= |s|
    ensures forall k :: 0 <= k < n ==> IsReSpace(s[k])
    ensures n < |s| ==> !IsReSpace(s[n])
  {
    if s != [] && IsReSpace(s[0]) then 1 + SpaceRun(s[1..]) else 0
  }

  /** How many leading characters of `s` satisfy `.` (anything but '\n'). */
  function LineRun(s: string): (n: nat)
    ensures n <= |s|
    ensures forall k :: 0 <= k < n ==> s[k] != '\n'
    ensures n < |s| ==> s[n] == '\n'
  {
    if s != [] && s[0] != '\n' then 1 + LineRun(s[1..]) else 0
  }

  /** `\s*(?P<value>.+)` matched against `rest` with `\s*` first taking `k`
      whitespace characters and giving them back one by one, as the regex
      engine backtracks, until `.+` can take at least one character. */
  function ValueMatch(rest: string, k: nat): (r: Option<string>)
    requires k <= SpaceRun(rest)
    ensures r.Some? ==> r.value != "" && '\n' !in r.value
  {
    if k < |rest| && rest[k] != '\n' then Some(rest[k..k + LineRun(rest[k..])])
    else if k == 0 then None
    else ValueMatch(rest, k - 1)
  }

  /** `re.match('^(?P<key>\w+)\s*=\s*(?P<value>.+)', line)`: the key is the
      longest run of word characters (a shorter one would leave a word
      character where `\s*=` must match), then optional whitespace, '=' and
      the value. */
  function ParseConfigLine(line: string): (r: Option<(string, string)>)
    ensures r.Some? ==>
      (r.value.0 != "" && StartsWith(line, r.value.0)
       && forall k :: 0 <= k < |r.value.0| ==> IsWordChar(r.value.0[k]))
    ensures r.Some? ==> r.value.1 != "" && '\n' !in r.value.1
  {
    var w := WordRun(line);
    if w == 0 then None
    else
      var after := line[w..];
      var sp := SpaceRun(after);
      if sp < |after| && after[sp] == '=' then
        var rest := after[sp + 1..];
        match ValueMatch(rest, SpaceRun(rest))
        case None => None
        case Some(v) => Some((line[..w], v))
      else None
  }

  /** A line without '=' is an invalid reply. */
  lemma ConfigLineNeedsEquals(line: string)
    requires '=' !in line
    ensures ParseConfigLine(line) == None
  {
    var w := WordRun(line);
    if w > 0 {
      var after := line[w..];
      var sp := SpaceRun(after);
      assert after == line[w..];
    }
  }

  /** `key = value` round trip: a word key, whitespace around '=', and a
      one-line value that does not start with whitespace come back as they
      were written. */
  lemma ConfigLineRoundTrip(key: string, pad1: string, pad2: string, value: string)
    requires key != [] && forall k :: 0 <= k < |key| ==> IsWordChar(key[k])
    requires forall k :: 0 <= k < |pad1| ==> pad1[k] == ' '
    requires forall k :: 0 <= k < |pad2| ==> pad2[k] == ' '
    requires value != [] && '\n' !in value && !IsReSpace(value[0])
    ensures ParseConfigLine(key + pad1 + "=" + pad2 + value) == Some((key, value))
  {
    var rest := pad2 + value;
    var after := pad1 + ("=" + rest);
    assert key + pad1 + "=" + pad2 + value == key + after;
    WordRunOf(key, after);
    SpaceRunOf(pad1, "=" + rest);
    AfterEquals(pad1, rest);
    ValueOfRest(pad2, value);
    ConfigLineParts(key, after, |pad1|, value);
  }

  lemma AfterEquals(pad: string, rest: string)
    ensures (pad + ("=" + rest))[|pad|] == '='
    ensures (pad + ("=" + rest))[|pad| + 1..] == rest
  {
    assert (pad + ("=" + rest))[|pad| + 1..] == ("=" + rest)[1..];
  }

  lemma ValueOfRest(pad: string, value: string)
    requires forall k :: 0 <= k < |pad| ==> pad[k] == ' '
    requires value != [] && '\n' !in value && !IsReSpace(value[0])
    ensures ValueMatch(pad + value, SpaceRun(pad + value)) == Some(value)
  {
    SpaceRunOf(pad, value);
    var rest, k := pad + value, |pad|;
    assert rest[k..] == value;
    LineRunOf(value);
    assert k < |rest| && rest[k] != '\n';
    assert rest[k..k + |value|] == value;
  }

  /** Reading `ParseConfigLine` off a line cut into its key and the rest. */
  lemma ConfigLineParts(key: string, after: string, sp: nat, value: string)
    requires key != [] && WordRun(key + after) == |key|
    requires SpaceRun(after) == sp && sp < |after| && after[sp] == '='
    requires ValueMatch(after[sp + 1..], SpaceRun(after[sp + 1..])) == Some(value)
    ensures ParseConfigLine(key + after) == Some((key, value))
  {
    var line := key + after;
    assert line[..|key|] == key && line[|key|..] == after;
  }

  lemma {:induction false} WordRunOf(word: string, tail: string)
    requires forall k :: 0 <= k < |word| ==> IsWordChar(word[k])
    requires tail == [] || !IsWordChar(tail[0])
    ensures WordRun(word + tail) == |word|
    decreases |word|
  {
    if word != [] {
      assert (word + tail)[1..] == word[1..] + tail;
      WordRunOf(word[1..], tail);
    } else {
      assert word + tail == tail;
    }
  }

  lemma {:induction false} SpaceRunOf(pad: string, tail: string)
    requires forall k :: 0 <= k < |pad| ==> pad[k] == ' '
    requires tail == [] || !IsReSpace(tail[0])
    ensures SpaceRun(pad + tail) == |pad|
    decreases |pad|
  {
    if pad != [] {
      assert (pad + tail)[1..] == pad[1..] + tail;
      SpaceRunOf(pad[1..], tail);
    } else {
      assert pad + tail == tail;
    }
  }

  lemma LineRunOf(s: string)
    requires '\n' !in s
    ensures LineRun(s) == |s|
  {
    if LineRun(s) < |s| {
      assert s[LineRun(s)] == '\n';
    }
  }

  // ---------------------------------------------------------------------
  // parse_targets (pycat.py:331-353)
  // ---------------------------------------------------------------------

  /** Who a relay line may address: the users of the tracked channel and the
      channel itself (`allowed_targets`). */
  function AllowedTargets(channels: map<string, set<string>>, channel: string): set<string>
    requires channel in channels
  {
    channels[channel] + {channel}
  }

  /** `'@' in parts[0] or '#' in parts[0]`: the first word is read as a
      target list when it holds either character anywhere. */
  predicate LooksLikeTargets(word: string) {
    '@' in word || '#' in word
  }

  /** `valid`: an entry names a target when it starts with '#' or '@'. The
      empty entry is not valid (the source raises IndexError there instead;
      see `ParseTargetsAsWritten`). */
  predicate ValidEntry(e: string) {
    e != "" && (e[0] == '#' || e[0] == '@')
  }

  /** The filter/strip/filter chain over the comma-separated entries, in
      order: valid entries, stripped of leading '@', kept when allowed. */
  function SelectTargets(entries: seq<string>, allowed: set<string>): (targets: seq<string>)
    ensures forall k :: 0 <= k < |targets| ==>
      (targets[k] in allowed && (targets[k] == "" || targets[k][0] != '@'))
  {
    if entries == [] then []
    else
      var e := entries[0];
      (if ValidEntry(e) && LStrip(e, '@') in allowed then [LStrip(e, '@')] else [])
        + SelectTargets(entries[1..], allowed)
  }

  /** `parse_targets(line)`: the resolved targets and the message to say.
      An empty entry in the target list is skipped as invalid. */
  function ParseTargets(channels: map<string, set<string>>, channel: string, line: string)
    : (r: (seq<string>, string))
  {
    if channel !in channels then ([], line)
    else
      var parts := Split(line, ' ');
      if LooksLikeTargets(parts[0]) then
        (SelectTargets(Split(parts[0], ','), AllowedTargets(channels, channel)),
         Join(parts[1..], ' '))
      else ([channel], Join(parts, ' '))
  }

  /** A target is selected exactly when some entry of the list names it,
      with '@' stripped, and it is allowed. */
  lemma {:induction false} SelectTargetsIff(entries: seq<string>, allowed: set<string>, t: string)
    ensures t in SelectTargets(entries, allowed)
      <==> t in allowed && exists e :: e in entries && ValidEntry(e) && LStrip(e, '@') == t
    decreases |entries|
  {
    if entries != [] {
      SelectTargetsIff(entries[1..], allowed, t);
      assert entries == [entries[0]] + entries[1..];
      if exists e :: e in entries && ValidEntry(e) && LStrip(e, '@') == t {
        var e :| e in entries && ValidEntry(e) && LStrip(e, '@') == t;
        if e != entries[0] {
          assert e in entries[1..];
        }
      }
    }
  }

  /** Every resolved target is a user of the channel or the channel itself,
      and one taken from an explicit list carries no leading '@'; without a
      joined channel nothing is resolved and the line is kept whole. */
  lemma TargetsAreAllowed(channels: map<string, set<string>>, channel: string, line: string)
    ensures channel !in channels ==> ParseTargets(channels, channel, line) == ([], line)
    ensures channel in channels ==>
      var targets := ParseTargets(channels, channel, line).0;
      forall k :: 0 <= k < |targets| ==> targets[k] in channels[channel] + {channel}
    ensures channel in channels && LooksLikeTargets(Split(line, ' ')[0]) ==>
      var targets := ParseTargets(channels, channel, line).0;
      forall k :: 0 <= k < |targets| ==> targets[k] == "" || targets[k][0] != '@'
  {
  }

  /** A line whose first word has neither '@' nor '#' goes to the channel
      unchanged, because joining the words again is the identity. */
  lemma PlainLineGoesToChannel(channels: map<string, set<string>>, channel: string, line: string)
    requires channel in channels
    requires !LooksLikeTargets(Split(line, ' ')[0])
    ensures ParseTargets(channels, channel, line) == ([channel], line)
  {
    JoinSplit(line, ' ');
  }

  /** With an explicit target list the targets are those the comma list
      selects and the message is the rest of the line after the first space
      (empty when there is none). */
  lemma TargetListMessage(channels: map<string, set<string>>, channel: string, word: string, rest: string)
    requires channel in channels
    requires ' ' !in word && LooksLikeTargets(word)
    ensures ParseTargets(channels, channel, word + " " + rest)
      == (SelectTargets(Split(word, ','), AllowedTargets(channels, channel)), rest)
    ensures ParseTargets(channels, channel, word).1 == ""
  {
    SplitAtSeparator(word, rest, ' ');
    JoinSplit(rest, ' ');
    assert ([word] + Split(rest, ' '))[1..] == Split(rest, ' ');
    SplitJoin([word], ' ');
  }

  /** Resolving `@user,#channel message`: both named targets are current
      members, so both are kept, in the order written, with the '@'
      stripped, and the rest of the line is the message. */
  lemma TwoTargetResolution(channels: map<string, set<string>>, channel: string, user: string, msg: string)
    requires channel in channels && user in channels[channel]
    requires ' ' !in user && ',' !in user && ' ' !in channel && ',' !in channel
    requires channel != "" && channel[0] == '#' && (user == "" || user[0] != '@')
    ensures ParseTargets(channels, channel, "@" + user + "," + channel + " " + msg) == ([user, channel], msg)
  {
    var word := TwoTargetWord(user, channel, msg);
    TargetListMessage(channels, channel, word, msg);
    StripMention(user);
    TwoEntries("@" + user, channel, AllowedTargets(channels, channel));
  }

  /** The first word of `@user,#channel message`. */
  lemma TwoTargetWord(user: string, channel: string, msg: string) returns (word: string)
    requires ' ' !in user && ',' !in user && ' ' !in channel
    ensures word == "@" + user + [','] + channel
    ensures "@" + user + "," + channel + " " + msg == word + " " + msg
    ensures ' ' !in word && LooksLikeTargets(word) && ',' !in "@" + user
  {
    word := "@" + user + [','] + channel;
    assert word[0] == '@';
  }

  /** Stripping the '@' of a mention gives the nick back. */
  lemma StripMention(user: string)
    requires user == "" || user[0] != '@'
    ensures LStrip("@" + user, '@') == user
  {
    assert ("@" + user)[1..] == user;
  }

  /** Selecting from a two-entry list `a,b` of valid, allowed entries. */
  lemma TwoEntries(a: string, b: string, allowed: set<string>)
    requires ',' !in a && ',' !in b && ValidEntry(a) && ValidEntry(b)
    requires LStrip(a, '@') in allowed && LStrip(b, '@') in allowed
    ensures SelectTargets(Split(a + [','] + b, ','), allowed) == [LStrip(a, '@'), LStrip(b, '@')]
  {
    TwoEntryList(a, b);
    SelectTwo(a, b, allowed);
  }

  lemma TwoEntryList(a: string, b: string)
    requires ',' !in a && ',' !in b
    ensures Split(a + [','] + b, ',') == [a, b]
  {
    SplitAtSeparator(a, b, ',');
    SplitJoin([b], ',');
  }

  lemma SelectTwo(a: string, b: string, allowed: set<string>)
    requires ValidEntry(a) && ValidEntry(b)
    requires LStrip(a, '@') in allowed && LStrip(b, '@') in allowed
    ensures SelectTargets([a, b], allowed) == [LStrip(a, '@'), LStrip(b, '@')]
  {
    SelectHeadOfTwo(a, b, allowed);
    SelectOne(b, allowed);
  }

  lemma SelectOne(b: string, allowed: set<string>)
    requires ValidEntry(b) && LStrip(b, '@') in allowed
    ensures SelectTargets([b], allowed) == [LStrip(b, '@')]
  {
    var nil: seq<string> := [];
    SelectedEntry(b, nil, allowed);
    assert [b] + nil == [b];
  }

  lemma SelectHeadOfTwo(a: string, b: string, allowed: set<string>)
    requires ValidEntry(a) && LStrip(a, '@') in allowed
    ensures SelectTargets([a, b], allowed) == [LStrip(a, '@')] + SelectTargets([b], allowed)
  {
    SelectedEntry(a, [b], allowed);
    assert [a] + [b] == [a, b];
  }

  /** A valid, allowed entry at the head of the list is selected first. */
  lemma SelectedEntry(e: string, rest: seq<string>, allowed: set<string>)
    requires ValidEntry(e) && LStrip(e, '@') in allowed
    ensures SelectTargets([e] + rest, allowed) == [LStrip(e, '@')] + SelectTargets(rest, allowed)
  {
    assert ([e] + rest)[1..] == rest;
  }

  /** A concrete resolution of `@alice,#chan hello`. */
  lemma ResolutionExample()
    ensures ParseTargets(map["#chan" := {"alice", "bob"}], "#chan", "@alice,#chan hello")
      == (["alice", "#chan"], "hello")
  {
    assert "@alice,#chan hello" == "@" + "alice" + "," + "#chan" + " " + "hello";
    TwoTargetResolution(map["#chan" := {"alice", "bob"}], "#chan", "alice", "hello");
  }

  /** What `parse_targets` does as written when an entry of the target list
      is empty: `valid` reads `s[0]` of the empty string. */
  datatype TargetsError = IndexError

  /** `valid = lambda s: s[0] in '#@'` as written. */
  function ValidAsWritten(e: string): Result<bool, TargetsError>
  {
    if e == "" then Err(IndexError) else Ok(e[0] == '#' || e[0] == '@')
  }

  /** `filter(valid, targets)` as written: the first IndexError escapes. */
  function FilterValidAsWritten(entries: seq<string>): Result<seq<string>, TargetsError>
  {
    if entries == [] then Ok([])
    else
      var keep :- ValidAsWritten(entries[0]);
      var rest :- FilterValidAsWritten(entries[1..]);
      Ok(if keep then [entries[0]] + rest else rest)
  }

  /** `map(strip, ...)` followed by `filter(allowed, ...)`. */
  function StripAndAllow(entries: seq<string>, allowed: set<string>): seq<string>
  {
    if entries == [] then []
    else
      (if LStrip(entries[0], '@') in allowed then [LStrip(entries[0], '@')] else [])
        + StripAndAllow(entries[1..], allowed)
  }

  /** `parse_targets` exactly as pycat.py:331-353 writes it. */
  function ParseTargetsAsWritten(channels: map<string, set<string>>, channel: string, line: string)
    : Result<(seq<string>, string), TargetsError>
  {
    if channel !in channels then Ok(([], line))
    else
      var parts := Split(line, ' ');
      if LooksLikeTargets(parts[0]) then
        var valid :- FilterValidAsWritten(Split(parts[0], ','));
        Ok((StripAndAllow(valid, AllowedTargets(channels, channel)), Join(parts[1..], ' ')))
      else Ok(([channel], Join(parts, ' ')))
  }

  /** The written filter fails exactly on a list with an empty entry, and
      otherwise selects what `SelectTargets` selects. */
  lemma {:induction false} FilterValidAsWrittenAgrees(entries: seq<string>, allowed: set<string>)
    ensures FilterValidAsWritten(entries).Err? <==> "" in entries
    ensures FilterValidAsWritten(entries).Ok? ==>
      StripAndAllow(FilterValidAsWritten(entries).value, allowed) == SelectTargets(entries, allowed)
    decreases |entries|
  {
    if entries != [] {
      FilterValidAsWrittenAgrees(entries[1..], allowed);
      assert entries == [entries[0]] + entries[1..];
      var r := FilterValidAsWritten(entries[1..]);
      if entries[0] != "" && r.Ok? {
        if ValidEntry(entries[0]) {
          assert FilterValidAsWritten(entries).value == [entries[0]] + r.value;
          assert ([entries[0]] + r.value)[1..] == r.value;
        }
      }
    }
  }

  /** The as-written resolver crashes exactly when the target list has an
      empty entry; on every other line it agrees with `ParseTargets`. */
  lemma AsWrittenAgreesOtherwise(channels: map<string, set<string>>, channel: string, line: string)
    ensures var r := ParseTargetsAsWritten(channels, channel, line);
      var parts := Split(line, ' ');
      (r.Err? <==> channel in channels && LooksLikeTargets(parts[0]) && "" in Split(parts[0], ','))
      && (r.Ok? ==> r.value == ParseTargets(channels, channel, line))
  {
    if channel in channels {
      var parts := Split(line, ' ');
      FilterValidAsWrittenAgrees(Split(parts[0], ','), AllowedTargets(channels, channel));
    }
  }

  /** The discrepancy: a target word that ends in a stray comma, as in
      "@alice, hi", makes the as-written resolver raise IndexError, which
      nothing in the select loop catches, while `ParseTargets` keeps the
      named target. */
  lemma StrayCommaCrashes(channels: map<string, set<string>>, channel: string, word: string, msg: string)
    requires channel in channels
    requires ' ' !in word && ',' !in word && word != "" && word[0] == '@'
    requires word[1..] in channels[channel] && (|word| == 1 || word[1] != '@')
    ensures ParseTargetsAsWritten(channels, channel, word + ", " + msg).Err?
    ensures ParseTargets(channels, channel, word + ", " + msg) == ([word[1..]], msg)
  {
    var first := StrayCommaWord(word, msg);
    StrayCommaEntries(word);
    AsWrittenAgreesOtherwise(channels, channel, first + " " + msg);
    TargetListMessage(channels, channel, first, msg);
    SelectBeforeEmpty(word, AllowedTargets(channels, channel));
  }

  /** The first word of `word, msg`. */
  lemma StrayCommaWord(word: string, msg: string) returns (first: string)
    requires ' ' !in word && word != "" && word[0] == '@'
    ensures first == word + [','] && word + ", " + msg == first + " " + msg
    ensures ' ' !in first && LooksLikeTargets(first)
    ensures Split(first + " " + msg, ' ')[0] == first
  {
    first := word + [','];
    assert first[0] == '@';
    SplitAtSeparator(first, msg, ' ');
  }

  /** A word with a trailing comma is one entry and an empty one. */
  lemma StrayCommaEntries(word: string)
    requires ',' !in word
    ensures Split(word + [','], ',') == [word, ""]
  {
    SplitAtSeparator(word, "", ',');
    assert word + [','] + "" == word + [','];
  }

  /** The empty entry after a valid, allowed one selects nothing. */
  lemma SelectBeforeEmpty(word: string, allowed: set<string>)
    requires word != "" && word[0] == '@' && word[1..] in allowed && (|word| == 1 || word[1] != '@')
    ensures SelectTargets([word, ""], allowed) == [word[1..]]
  {
    assert LStrip(word, '@') == word[1..];
    SelectedEntry(word, [""], allowed);
    assert [word] + [""] == [word, ""];
    assert SelectTargets([""], allowed) == [];
    assert [word[1..]] + [] == [word[1..]];
  }

  /** The concrete input of the discrepancy. */
  lemma EmptyEntryCrashes()
    ensures ParseTargetsAsWritten(map["#pycat" := {"alice"}], "#pycat", "@alice, hi").Err?
    ensures ParseTargets(map["#pycat" := {"alice"}], "#pycat", "@alice, hi") == (["alice"], "hi")
  {
    assert "@alice, hi" == "@alice" + ", " + "hi";
    StrayCommaCrashes(map["#pycat" := {"alice"}], "#pycat", "@alice", "hi");
  }

  // ---------------------------------------------------------------------
  // send_message (pycat.py:355-366)
  // ---------------------------------------------------------------------

  /** A call into the IRC library's connection: `action`, `notice` or
      `privmsg_many`. How the library renders them is not part of this
      model. */
  datatype Outgoing =
    | Action(target: string, text: string)
    | Notice(target: string, text: string)
    | PrivmsgMany(targets: seq<string>, text: string)

  /** `send_message(message, targets)`: "/me " becomes one action per
      target, "/notice " one notice per target, anything else one
      privmsg to all targets. */
  function SendMessage(message: string, targets: seq<string>): seq<Outgoing>
  {
    if StartsWith(message, "/me ") then
      seq(|targets|, k requires 0 <= k < |targets| => Action(targets[k], message[4..]))
    else if StartsWith(message, "/notice ") then
      seq(|targets|, k requires 0 <= k < |targets| => Notice(targets[k], message[8..]))
    else [PrivmsgMany(targets, message)]
  }

  /** The relay line a library call says, prefix included. */
  function Said(o: Outgoing): string
  {
    match o
    case Action(_, text) => "/me " + text
    case Notice(_, text) => "/notice " + text
    case PrivmsgMany(_, text) => text
  }

  /** Who a library call reaches. */
  function Reached(o: Outgoing): seq<string>
  {
    match o
    case Action(t, _) => [t]
    case Notice(t, _) => [t]
    case PrivmsgMany(ts, _) => ts
  }

  /** Every call `send_message` makes says the message itself, and together
      they reach the targets in order; a prefixed message makes one call per
      target, any other message exactly one. */
  lemma SendMessageSaysMessage(message: string, targets: seq<string>)
    ensures var out := SendMessage(message, targets);
      (forall k :: 0 <= k < |out| ==> Said(out[k]) == message)
      && (StartsWith(message, "/me ") || StartsWith(message, "/notice ") ==>
            |out| == |targets| && forall k :: 0 <= k < |out| ==> Reached(out[k]) == [targets[k]])
      && (!StartsWith(message, "/me ") && !StartsWith(message, "/notice ") ==>
            |out| == 1 && Reached(out[0]) == targets)
  {
    var out := SendMessage(message, targets);
    if StartsWith(message, "/me ") {
      forall k | 0 <= k < |out| ensures Said(out[k]) == message {
        assert message == message[..4] + message[4..];
      }
    } else if StartsWith(message, "/notice ") {
      forall k | 0 <= k < |out| ensures Said(out[k]) == message {
        assert message == message[..8] + message[8..];
      }
    }
  }
}
