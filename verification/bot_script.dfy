/** The handlers bot.py plugs into irc.py's `Bot`: `listen_parser`, which
    turns a line from the local listener into a channel message, and
    `mode_parser`, which walks a MODE line's modifier string and, when the
    bot itself has just been opped, gives the op away for a voice.

    A handler's effect is the `bot.irc.<name>(*params)` call it makes,
    returned as a `Call`; `bot.ready` and `bot.currentnick` are parameters,
    since the bot attributes behind them are not part of this model. */
module BotScript {
  import opened Wrappers
  import opened Text
  import opened IrcCodec
  import opened IrcBot

  /** The channel the script relays to. */
  const Channel: string := "#foo"

  /** A call `bot.irc.<name>(*params)`. */
  datatype Call = Call(name: string, params: seq<string>)

  /** The line the call hands to `sender`, or the error it raises. */
  function Wire(c: Call): Result<string, PyError> {
    Invoke(c.name, c.params)
  }

  // ---------------------------------------------------------------------
  // listen_parser (bot.py:24-32)
  // ---------------------------------------------------------------------

  /** The characters Python 2's `unicode.strip()` removes. */
  predicate IsSpace(c: char) {
    c in "\t\n\U{b}\U{c}\r\U{1c}\U{1d}\U{1e}\U{1f} \U{85}\U{a0}\U{1680}\U{180e}\U{2028}\U{2029}\U{202f}\U{205f}\U{3000}"
    || '\U{2000}' <= c <= '\U{200a}'
  }

  /** `not line.strip()`: the line is empty or all white space. */
  predicate Blank(line: string) {
    forall k :: 0 <= k < |line| ==> IsSpace(line[k])
  }

  const MePrefix: string := "/me "
  const NoticePrefix: string := "/notice "

  /** The call `listen_parser(line)` makes, if any. */
  function ListenParser(line: string, ready: bool): (r: Option<Call>)
    ensures r.None? <==> Blank(line) || !ready
    ensures r.Some? ==> |r.value.params| == 2 && r.value.params[0] == Channel
  {
    if Blank(line) || !ready then None
    else if StartsWith(line, MePrefix) then Some(Call("ctcp_action", [Channel, line[|MePrefix|..]]))
    else if StartsWith(line, NoticePrefix) then Some(Call("notice", [Channel, line[|NoticePrefix|..]]))
    else Some(Call("privmsg", [Channel, line]))
  }

  /** A command name that does not start with 'C' is sent as it is,
      followed by its parameters. */
  lemma PlainWire(name: string, params: seq<string>)
    requires name != "" && name[0] != 'C'
    ensures WireArgs(name, params) == Ok([name] + params)
  {
    assert !StartsWith(name, CtcpPrefix) && !StartsWith(name, CtcpNoticePrefix);
  }

  /** A name with no lower-case letter is its own upper case. */
  lemma UpperFixed(s: string)
    requires forall k :: 0 <= k < |s| ==> !('a' <= s[k] <= 'z')
    ensures Upper(s) == s
  {
  }

  lemma ChannelIsMiddle()
    ensures MiddleParam(Channel)
  {
  }

  /** "/me text" goes out as a CTCP ACTION to the channel, and the server's
      copy of that line parses back to the action and its text. */
  lemma ListenMe(text: string)
    ensures ListenParser(MePrefix + text, true) == Some(Call("ctcp_action", [Channel, text]))
    ensures Wire(Call("ctcp_action", [Channel, text]))
         == Ok("PRIVMSG" + " " + Channel + " :" + CtcpPayload("ACTION", text))
    ensures ParseLine("PRIVMSG" + " " + Channel + " :" + CtcpPayload("ACTION", text))
         == Ok(Message(None, None, None, CtcpPrefix + "ACTION", [Channel, text]))
  {
    var line := MePrefix + text;
    assert line[0] == '/' && !IsSpace(line[0]);
    assert line[..|MePrefix|] == MePrefix && line[|MePrefix|..] == text;
    assert Upper("ctcp_action") == CtcpPrefix + "ACTION";
    ChannelIsMiddle();
    CtcpRoundTrip("ACTION", Channel, text);
  }

  /** "/notice text" goes out as a NOTICE to the channel with the text
      verbatim, and parses back to it. */
  lemma ListenNotice(text: string)
    ensures ListenParser(NoticePrefix + text, true) == Some(Call("notice", [Channel, text]))
    ensures Wire(Call("notice", [Channel, text])) == Ok("NOTICE" + " " + Channel + " :" + text)
    ensures ParseLine("NOTICE" + " " + Channel + " :" + text)
         == Ok(Message(None, None, None, "NOTICE", [Channel, text]))
  {
    var line := NoticePrefix + text;
    assert line[0] == '/' && !IsSpace(line[0]);
    assert line[..|MePrefix|] != MePrefix by { assert line[1] == 'n'; }
    assert line[..|NoticePrefix|] == NoticePrefix && line[|NoticePrefix|..] == text;
    assert Upper("notice") == "NOTICE";
    ChannelIsMiddle();
    PlainWire("NOTICE", [Channel, text]);
    assert ["NOTICE"] + [Channel, text] == ["NOTICE", Channel, text];
    CommandOfThree("NOTICE", [Channel, text], "NOTICE", Channel, text);
    CommandRoundTrip("NOTICE", [Channel, text]);
  }

  /** Any other line that is not blank goes out unchanged as a PRIVMSG to
      the channel, and parses back to it unless it is itself shaped like a
      CTCP payload. */
  lemma ListenPlain(line: string)
    requires !Blank(line)
    requires !StartsWith(line, MePrefix) && !StartsWith(line, NoticePrefix)
    ensures ListenParser(line, true) == Some(Call("privmsg", [Channel, line]))
    ensures Wire(Call("privmsg", [Channel, line])) == Ok("PRIVMSG" + " " + Channel + " :" + line)
    ensures !(line[0] == Delim && line[|line| - 1] == Delim) ==>
      ParseLine("PRIVMSG" + " " + Channel + " :" + line)
        == Ok(Message(None, None, None, "PRIVMSG", [Channel, line]))
  {
    assert Upper("privmsg") == "PRIVMSG";
    ChannelIsMiddle();
    PlainWire("PRIVMSG", [Channel, line]);
    assert ["PRIVMSG"] + [Channel, line] == ["PRIVMSG", Channel, line];
    CommandOfThree("PRIVMSG", [Channel, line], "PRIVMSG", Channel, line);
    if !(line[0] == Delim && line[|line| - 1] == Delim) {
      CommandRoundTrip("PRIVMSG", [Channel, line]);
    }
  }

  // ---------------------------------------------------------------------
  // mode_parser (bot.py:61-81)
  // ---------------------------------------------------------------------

  /** One parsed mode change: the sign in effect and the mode letter, and
      the argument it took, if it takes one. */
  datatype Change = Change(mode: string, arg: Option<string>)

  /** The modes that consume an argument. */
  const ParamModes: string := "bklvo"
  const Signs: string := "+-"

  /** The state of the walk over the modifier string: the current sign,
      the arguments not yet consumed, and the changes so far. */
  datatype Walk = Walk(state: string, available: seq<string>, changes: seq<Change>)

  /** One character of the walk: a sign sets the state, a parameterised
      mode pops the next argument (IndexError when none is left), any
      other mode pairs with no argument. */
  function Step(w: Walk, c: char): Result<Walk, PyError> {
    if c in Signs then Ok(w.(state := [c]))
    else if c in ParamModes then
      if w.available == [] then Err(IndexError)
      else Ok(Walk(w.state, w.available[1..], w.changes + [Change(w.state + [c], Some(w.available[0]))]))
    else Ok(w.(changes := w.changes + [Change(w.state + [c], None)]))
  }

  /** The walk over a whole modifier string, from no sign and all the
      arguments after it. */
  function WalkModes(m: string, available: seq<string>): Result<Walk, PyError>
    decreases |m|
  {
    if m == [] then Ok(Walk("", available, []))
    else
      var w :- WalkModes(m[..|m| - 1], available);
      Step(w, m[|m| - 1])
  }

  /** How many characters of `m` take an argument. */
  function ParamCount(m: string): nat
    decreases |m|
  {
    if m == [] then 0
    else ParamCount(m[..|m| - 1]) + (if m[|m| - 1] in ParamModes then 1 else 0)
  }

  /** How many characters of `m` are modes rather than signs. */
  function ModeCount(m: string): nat
    decreases |m|
  {
    if m == [] then 0
    else ModeCount(m[..|m| - 1]) + (if m[|m| - 1] in Signs then 0 else 1)
  }

  /** The last sign in `m`, or "" when there is none. */
  function SignOf(m: string): string
    decreases |m|
  {
    if m == [] then ""
    else if m[|m| - 1] in Signs then [m[|m| - 1]]
    else SignOf(m[..|m| - 1])
  }

  /** The walk fails exactly when the modes need more arguments than the
      line carries; when it succeeds, one change is made per mode letter,
      the arguments are consumed from the front, and the state is the last
      sign seen. */
  lemma {:induction false} WalkModesOutcome(m: string, available: seq<string>)
    ensures WalkModes(m, available).Ok? <==> ParamCount(m) <= |available|
    ensures WalkModes(m, available).Err? ==> WalkModes(m, available).error == IndexError
    ensures WalkModes(m, available).Ok? ==>
      var w := WalkModes(m, available).value;
      w.state == SignOf(m) && w.available == available[ParamCount(m)..] && |w.changes| == ModeCount(m)
    decreases |m|
  {
    if m != [] {
      var front := m[..|m| - 1];
      WalkModesOutcome(front, available);
      if WalkModes(front, available).Ok? {
        var w := WalkModes(front, available).value;
        if w.available != [] {
          assert w.available[1..] == available[ParamCount(front) + 1..];
        }
      }
    }
  }

  /** Each mode letter at position `i` of the modifier string becomes the
      change numbered by the mode letters before it: the sign in effect
      there plus the letter, with the next unconsumed argument when the
      letter is one of "bklvo" and no argument otherwise. */
  lemma {:induction false} WalkModesChange(m: string, available: seq<string>, i: nat)
    requires WalkModes(m, available).Ok?
    requires i < |m| && m[i] !in Signs
    ensures ModeCount(m[..i]) < |WalkModes(m, available).value.changes|
    ensures WalkModes(m, available).value.changes[ModeCount(m[..i])].mode == SignOf(m[..i]) + [m[i]]
    ensures m[i] in ParamModes ==>
      ParamCount(m[..i]) < |available|
      && WalkModes(m, available).value.changes[ModeCount(m[..i])].arg == Some(available[ParamCount(m[..i])])
    ensures m[i] !in ParamModes ==> WalkModes(m, available).value.changes[ModeCount(m[..i])].arg == None
    decreases |m|
  {
    var front := m[..|m| - 1];
    var w := WalkModes(front, available).value;
    if i == |m| - 1 {
      assert front == m[..i];
      WalkModesOutcome(front, available);
    } else {
      assert front[..i] == m[..i] && front[i] == m[i];
      WalkModesChange(front, available, i);
      WalkModesOutcome(front, available);
    }
  }

  /** Once the walk of a prefix has failed, the whole walk fails. */
  lemma WalkModesFailsFrom(m: string, available: seq<string>, i: nat)
    requires i <= |m| && WalkModes(m[..i], available).Err?
    ensures WalkModes(m, available) == Err(IndexError)
  {
    WalkModesOutcome(m[..i], available);
    WalkModesOutcome(m, available);
    ParamCountGrows(m, i);
  }

  lemma {:induction false} ParamCountGrows(m: string, i: nat)
    requires i <= |m|
    ensures ParamCount(m[..i]) <= ParamCount(m)
    decreases |m|
  {
    if i < |m| {
      var front := m[..|m| - 1];
      assert front[..i] == m[..i];
      ParamCountGrows(front, i);
    } else {
      assert m[..i] == m;
    }
  }

  /** The reply `mode_parser` sends when the bot has been opped. */
  function DeopReply(nick: string): Call {
    Call("mode", [Channel, "+v-o", nick, nick])
  }

  /** `mode_parser(args=args)` with the bot's current nick: the parsed
      changes and the call it makes, if any. `args[0]` and `args[1]` are
      read before the channel test, so a MODE line with fewer than two
      arguments raises IndexError whatever its target. */
  method ModeParser(args: seq<string>, currentnick: string) returns (r: Result<(seq<Change>, Option<Call>), PyError>)
    ensures |args| < 2 ==> r == Err(IndexError)
    ensures |args| >= 2 && args[0] != Channel ==> r == Ok(([], None))
    ensures |args| >= 2 && args[0] == Channel ==>
      (r.Ok? <==> WalkModes(args[1], args[2..]).Ok?)
      && (r.Ok? ==> r.value.0 == WalkModes(args[1], args[2..]).value.changes)
    ensures r.Err? ==> r.error == IndexError
    ensures r.Ok? ==> (r.value.1.Some? <==> Change("+o", Some(currentnick)) in r.value.0)
    ensures r.Ok? && r.value.1.Some? ==> r.value.1.value == DeopReply(currentnick)
  {
    if |args| < 2 {
      return Err(IndexError);
    }
    var target, modifiers := args[0], args[1];
    if target != Channel {
      return Ok(([], None));
    }
    var state := "";
    var available := args[2..];
    var changes: seq<Change> := [];
    for i := 0 to |modifiers|
      invariant WalkModes(modifiers[..i], args[2..]) == Ok(Walk(state, available, changes))
    {
      var c := modifiers[i];
      assert modifiers[..i + 1][..i] == modifiers[..i];
      if c in Signs {
        state := [c];
      } else if c in ParamModes {
        if available == [] {
          WalkModesFailsFrom(modifiers, args[2..], i + 1);
          return Err(IndexError);
        }
        changes := changes + [Change(state + [c], Some(available[0]))];
        available := available[1..];
      } else {
        changes := changes + [Change(state + [c], None)];
      }
    }
    assert modifiers[..|modifiers|] == modifiers;
    if Change("+o", Some(currentnick)) in changes {
      r := Ok((changes, Some(DeopReply(currentnick))));
    } else {
      r := Ok((changes, None));
    }
  }

  /** A "+o" for the bot's nick anywhere in the modifier string, with the
      argument it pops being that nick, triggers the reply. */
  lemma OppedTriggersReply(m: string, available: seq<string>, i: nat, nick: string)
    requires WalkModes(m, available).Ok?
    requires i < |m| && m[i] == 'o' && SignOf(m[..i]) == "+"
    requires ParamCount(m[..i]) < |available| && available[ParamCount(m[..i])] == nick
    ensures Change("+o", Some(nick)) in WalkModes(m, available).value.changes
  {
    WalkModesChange(m, available, i);
    var changes := WalkModes(m, available).value.changes;
    assert changes[ModeCount(m[..i])] == Change("+o", Some(nick));
  }

  /** The reply goes out as "MODE #foo +v-o nick :nick", which parses
      back to the MODE command and its four arguments. */
  lemma DeopReplyWire(nick: string)
    requires MiddleParam(nick)
    ensures Wire(DeopReply(nick)) == Ok("MODE" + " " + Channel + " " + "+v-o" + " " + nick + " :" + nick)
    ensures ParseLine(Wire(DeopReply(nick)).value)
         == Ok(Message(None, None, None, "MODE", [Channel, "+v-o", nick, nick]))
  {
    assert Upper("mode") == "MODE";
    var ps := [Channel, "+v-o", nick, nick];
    PlainWire("MODE", ps);
    assert (["MODE"] + ps)[..4] == ["MODE", Channel, "+v-o", nick];
    JoinThree(Channel, "+v-o", nick);
    ChannelIsMiddle();
    assert MiddleParam("+v-o");
    CommandRoundTrip("MODE", ps);
  }

  /** When the server echoes the reply back, the walk finds a voice and a
      deop but no "+o", so the reply does not trigger itself. */
  lemma DeopReplyIsQuiet(nick: string)
    ensures WalkModes("+v-o", [nick, nick]) == Ok(Walk("-", [], [Change("+v", Some(nick)), Change("-o", Some(nick))]))
    ensures Change("+o", Some(nick)) !in WalkModes("+v-o", [nick, nick]).value.changes
  {
    var av := [nick, nick];
    assert "+"[..0] == [];
    assert WalkModes("+", av) == Ok(Walk("+", av, []));
    assert "+v"[..1] == "+" && av[1..] == [nick];
    var c1 := [Change("+v", Some(nick))];
    assert "+" + ['v'] == "+v" && [] + c1 == c1;
    assert WalkModes("+v", av) == Ok(Walk("+", [nick], c1));
    assert "+v-"[..2] == "+v";
    assert WalkModes("+v-", av) == Ok(Walk("-", [nick], c1));
    assert "+v-o"[..3] == "+v-" && [nick][1..] == [];
    assert "-" + ['o'] == "-o";
    assert c1 + [Change("-o", Some(nick))] == [Change("+v", Some(nick)), Change("-o", Some(nick))];
    assert WalkModes("+v-o", av) == Ok(Walk("-", [], c1 + [Change("-o", Some(nick))]));
  }

  lemma JoinThree(a: string, b: string, c: string)
    ensures Join(["MODE", a, b, c], ' ') == "MODE" + " " + a + " " + b + " " + c
  {
    assert ["MODE", a, b, c][1..] == [a, b, c];
    assert [a, b, c][1..] == [b, c];
    JoinTwo(b, c);
  }

  // ---------------------------------------------------------------------
  // The handlers bot.py registers (bot.py:97-100)
  // ---------------------------------------------------------------------

  /** The script's own `add_handler` calls, in order. */
  const ScriptHandlers: seq<(string, Handler)> := [
    ("INVITE", ScriptHandler("invite_rejoin")),
    ("MODE", ScriptHandler("mode_parser")),
    ("PRIVMSG", ScriptHandler("msg_parser")),
    ("ALL", ScriptHandler("reset_sigalarm"))]

  /** Every registration the bot's table holds: the constructor's, then the
      script's. */
  const ScriptRegistrations: seq<(string, Handler)> := BuiltinHandlers + ScriptHandlers

  /** A handler is in an event's list exactly when some registration put it
      under a name that upper-cases to the event. */
  lemma {:induction false} RegisteredForMember(regs: seq<(string, Handler)>, event: string, h: Handler)
    ensures h in RegisteredFor(regs, event) <==>
      exists k :: 0 <= k < |regs| && regs[k].1 == h && Upper(regs[k].0) == event
    decreases |regs|
  {
    if regs != [] {
      RegisteredForMember(regs[1..], event, h);
      if exists k :: 0 <= k < |regs| && regs[k].1 == h && Upper(regs[k].0) == event {
        var k :| 0 <= k < |regs| && regs[k].1 == h && Upper(regs[k].0) == event;
        if k > 0 {
          assert regs[1..][k - 1] == regs[k];
        }
      }
      if h in RegisteredFor(regs[1..], event) {
        var k :| 0 <= k < |regs[1..]| && regs[1..][k].1 == h && Upper(regs[1..][k].0) == event;
        assert regs[k + 1] == regs[1..][k];
      }
    }
  }

  /** `reset_sigalarm` is registered under "ALL", an ordinary event name:
      it runs only for a line whose command is literally ALL, never for
      other traffic. */
  lemma ResetAlarmOnlyOnAll(command: string)
    ensures ScriptHandler("reset_sigalarm") in HandlersOf(TableOf(ScriptRegistrations), command)
        <==> command == "ALL"
  {
    var regs := ScriptRegistrations;
    var h := ScriptHandler("reset_sigalarm");
    HandlersInRegistrationOrder(regs, command);
    RegisteredForMember(regs, command, h);
    assert |regs| == 8 && regs[7] == ("ALL", h);
    assert Upper("ALL") == "ALL" by { UpperFixed("ALL"); }
    if command == "ALL" {
      assert regs[7].1 == h && Upper(regs[7].0) == command;
    } else {
      assert forall k :: 0 <= k < 7 ==> regs[k].1 != h by {
        forall k | 0 <= k < 7
          ensures regs[k].1 != h
        {
        }
      }
    }
  }

  /** Registrations made one after another keep their order per event. */
  lemma {:induction false} RegisteredForConcat(a: seq<(string, Handler)>, b: seq<(string, Handler)>, event: string)
    ensures RegisteredFor(a + b, event) == RegisteredFor(a, event) + RegisteredFor(b, event)
    decreases |a|
  {
    if a == [] {
      assert a + b == b;
    } else {
      assert (a + b)[0] == a[0];
      assert (a + b)[1..] == a[1..] + b;
      RegisteredForConcat(a[1..], b, event);
      Regroup(if Upper(a[0].0) == event then [a[0].1] else [], RegisteredFor(a[1..], event), RegisteredFor(b, event));
    }
  }

  /** What one registration adds to the list of `event`, when its name is
      already upper case. */
  function Hit(r: (string, Handler), event: string): seq<Handler> {
    if r.0 == event then [r.1] else []
  }

  /** One registration off the front, with its event name already upper case. */
  lemma RegisteredForCons(r: (string, Handler), rest: seq<(string, Handler)>, event: string)
    requires forall k :: 0 <= k < |r.0| ==> !('a' <= r.0[k] <= 'z')
    ensures RegisteredFor([r] + rest, event) == Hit(r, event) + RegisteredFor(rest, event)
  {
    assert ([r] + rest)[0] == r;
    assert ([r] + rest)[1..] == rest;
    UpperFixed(r.0);
  }

  /** The handlers of a list of four registrations whose names are upper case. */
  lemma RegisteredForFour(a: (string, Handler), b: (string, Handler), c: (string, Handler), d: (string, Handler), event: string)
    requires forall k :: 0 <= k < |a.0| ==> !('a' <= a.0[k] <= 'z')
    requires forall k :: 0 <= k < |b.0| ==> !('a' <= b.0[k] <= 'z')
    requires forall k :: 0 <= k < |c.0| ==> !('a' <= c.0[k] <= 'z')
    requires forall k :: 0 <= k < |d.0| ==> !('a' <= d.0[k] <= 'z')
    ensures RegisteredFor([a, b, c, d], event)
         == Hit(a, event) + (Hit(b, event) + (Hit(c, event) + Hit(d, event)))
  {
    RegisteredForCons(d, [], event);
    assert [d] + [] == [d];
    RegisteredForCons(c, [d], event);
    assert [c] + [d] == [c, d];
    RegisteredForCons(b, [c, d], event);
    assert [b] + [c, d] == [b, c, d];
    RegisteredForCons(a, [b, c, d], event);
    assert [a] + [b, c, d] == [a, b, c, d];
  }

  lemma BuiltinsFor(event: string)
    ensures RegisteredFor(BuiltinHandlers, event)
         == Hit(("PING", IrcPong), event) + (Hit(("INVITE", IrcInvite), event)
          + (Hit(("376", IrcJoin), event) + Hit(("433", IrcNickCollision), event)))
  {
    RegisteredForFour(("PING", IrcPong), ("INVITE", IrcInvite), ("376", IrcJoin), ("433", IrcNickCollision), event);
  }

  lemma ScriptHandlersFor(event: string)
    ensures RegisteredFor(ScriptHandlers, event)
         == Hit(("INVITE", ScriptHandler("invite_rejoin")), event) + (Hit(("MODE", ScriptHandler("mode_parser")), event)
          + (Hit(("PRIVMSG", ScriptHandler("msg_parser")), event) + Hit(("ALL", ScriptHandler("reset_sigalarm")), event)))
  {
    RegisteredForFour(("INVITE", ScriptHandler("invite_rejoin")), ("MODE", ScriptHandler("mode_parser")),
      ("PRIVMSG", ScriptHandler("msg_parser")), ("ALL", ScriptHandler("reset_sigalarm")), event);
  }

  lemma BuiltinsForMode()
    ensures RegisteredFor(BuiltinHandlers, "MODE") == []
  {
    BuiltinsFor("MODE");
  }

  lemma ScriptHandlersForMode()
    ensures RegisteredFor(ScriptHandlers, "MODE") == [ScriptHandler("mode_parser")]
  {
    ScriptHandlersFor("MODE");
  }

  lemma BuiltinsForInvite()
    ensures RegisteredFor(BuiltinHandlers, "INVITE") == [IrcInvite]
  {
    BuiltinsFor("INVITE");
  }

  lemma ScriptHandlersForInvite()
    ensures RegisteredFor(ScriptHandlers, "INVITE") == [ScriptHandler("invite_rejoin")]
  {
    ScriptHandlersFor("INVITE");
  }

  /** A MODE line reaches `mode_parser` and nothing else. */
  lemma ModeDispatch()
    ensures HandlersOf(TableOf(ScriptRegistrations), "MODE") == [ScriptHandler("mode_parser")]
  {
    BuiltinsForMode();
    ScriptHandlersForMode();
    RegisteredForConcat(BuiltinHandlers, ScriptHandlers, "MODE");
    HandlersInRegistrationOrder(ScriptRegistrations, "MODE");
  }

  /** An INVITE reaches the bot's own rejoin first and then the script's. */
  lemma InviteDispatch()
    ensures HandlersOf(TableOf(ScriptRegistrations), "INVITE") == [IrcInvite, ScriptHandler("invite_rejoin")]
  {
    BuiltinsForInvite();
    ScriptHandlersForInvite();
    RegisteredForConcat(BuiltinHandlers, ScriptHandlers, "INVITE");
    HandlersInRegistrationOrder(ScriptRegistrations, "INVITE");
  }
}
