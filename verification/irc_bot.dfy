/** The state of irc.py's `Bot` that is not socket plumbing: the receive
    buffer asynchat fills up to each "\r\n", the table of event handlers,
    and the throttled sender that spaces outgoing lines at least
    `messages_per_second` (one second) apart.

    Handlers are named rather than called: `FoundTerminator` returns the
    parsed message and the handlers to run on it, in order. The clock is a
    `now` parameter, and the time after the throttle's sleep is taken to be
    `now` plus the sleep. */
module IrcBot {
  import opened Wrappers
  import opened Text
  import opened IrcCodec

  /** The callables a handler table holds: the bot's own replies, and the
      handlers a script registers, by name. */
  datatype Handler =
    | IrcPong
    | IrcInvite
    | IrcJoin
    | IrcNickCollision
    | ScriptHandler(name: string)

  /** The minimum spacing of two sent lines, in seconds. */
  const MessagesPerSecond: real := 1.0

  /** The terminator asynchat splits and sends lines with. */
  const Terminator: string := "\r\n"

  /** `handlers.get(event, [])`. */
  function HandlersOf(table: map<string, seq<Handler>>, event: string): seq<Handler> {
    if event in table then table[event] else []
  }

  /** The table after `add_handler(event, handler)` (irc.py:79-85): the
      handler is appended to the list of the upper-cased event, and every
      other list is left alone. */
  function Register(table: map<string, seq<Handler>>, event: string, h: Handler): (t: map<string, seq<Handler>>)
    ensures HandlersOf(t, Upper(event)) == HandlersOf(table, Upper(event)) + [h]
    ensures forall e :: e != Upper(event) ==> HandlersOf(t, e) == HandlersOf(table, e)
  {
    table[Upper(event) := HandlersOf(table, Upper(event)) + [h]]
  }

  /** The table a sequence of `add_handler` calls builds from an empty one. */
  function TableOf(regs: seq<(string, Handler)>): map<string, seq<Handler>>
    decreases |regs|
  {
    if regs == [] then map[]
    else Register(TableOf(regs[..|regs| - 1]), regs[|regs| - 1].0, regs[|regs| - 1].1)
  }

  /** The handlers registered for `event`, in the order of registration:
      those whose event name upper-cases to it. */
  function RegisteredFor(regs: seq<(string, Handler)>, event: string): seq<Handler>
    decreases |regs|
  {
    if regs == [] then []
    else (if Upper(regs[0].0) == event then [regs[0].1] else []) + RegisteredFor(regs[1..], event)
  }

  lemma {:induction false} RegisteredForAppend(regs: seq<(string, Handler)>, r: (string, Handler), event: string)
    ensures RegisteredFor(regs + [r], event)
         == RegisteredFor(regs, event) + (if Upper(r.0) == event then [r.1] else [])
    decreases |regs|
  {
    if regs == [] {
      assert [] + [r] == [r];
      assert [r][1..] == [];
    } else {
      assert (regs + [r])[0] == regs[0];
      assert (regs + [r])[1..] == regs[1..] + [r];
      RegisteredForAppend(regs[1..], r, event);
      Regroup(if Upper(regs[0].0) == event then [regs[0].1] else [],
        RegisteredFor(regs[1..], event), if Upper(r.0) == event then [r.1] else []);
    }
  }

  /** Handlers keep registration order: looking an event up in the table a
      sequence of registrations built gives exactly the handlers registered
      under a name that upper-cases to it, first registered first. */
  lemma {:induction false} HandlersInRegistrationOrder(regs: seq<(string, Handler)>, event: string)
    ensures HandlersOf(TableOf(regs), event) == RegisteredFor(regs, event)
    decreases |regs|
  {
    if regs != [] {
      var front, r := regs[..|regs| - 1], regs[|regs| - 1];
      HandlersInRegistrationOrder(front, event);
      RegisteredForAppend(front, r, event);
      assert front + [r] == regs;
    }
  }

  /** Registration upper-cases but lookup does not: an event name with a
      lower-case letter reaches no handler. */
  lemma LowerCaseEventHasNoHandlers(regs: seq<(string, Handler)>, event: string)
    requires Upper(event) != event
    ensures HandlersOf(TableOf(regs), event) == []
  {
    HandlersInRegistrationOrder(regs, event);
    NoneRegisteredFor(regs, event);
  }

  lemma {:induction false} NoneRegisteredFor(regs: seq<(string, Handler)>, event: string)
    requires Upper(event) != event
    ensures RegisteredFor(regs, event) == []
    decreases |regs|
  {
    if regs != [] {
      UpperIdempotent(regs[0].0);
      NoneRegisteredFor(regs[1..], event);
    }
  }

  lemma UpperIdempotent(s: string)
    ensures Upper(Upper(s)) == Upper(s)
  {
  }

  /** The handlers `Bot.__init__` registers (irc.py:58-61). */
  const BuiltinHandlers: seq<(string, Handler)> :=
    [("PING", IrcPong), ("INVITE", IrcInvite), ("376", IrcJoin), ("433", IrcNickCollision)]

  class Bot {
    const channel: string
    var buffer: string
    var handlers: map<string, seq<Handler>>
    var lastSend: real
    /** What `push` has queued for the socket, in order. */
    var pushed: seq<string>
    /** When each pushed line was sent. */
    ghost var sentAt: seq<real>

    /** Consecutive sends are at least `MessagesPerSecond` apart, and the
        last one happened at `lastSend`. */
    ghost predicate Spaced()
      reads this`sentAt, this`pushed, this`lastSend
    {
      |sentAt| == |pushed|
      && (forall i :: 0 < i < |sentAt| ==> sentAt[i] >= sentAt[i - 1] + MessagesPerSecond)
      && (sentAt != [] ==> sentAt[|sentAt| - 1] == lastSend)
    }

    /** `Bot.__init__` (irc.py:40-63) without the connection: an empty
        buffer, the clock read at `now`, and the four built-in handlers
        registered in order (the table `TableOf(BuiltinHandlers)`, by
        `BuiltinTable`). */
    constructor(channel: string, now: real)
      ensures this.channel == channel && buffer == "" && lastSend == now
      ensures pushed == [] && Spaced()
      ensures handlers == Register(Register(Register(Register(map[],
        "PING", IrcPong), "INVITE", IrcInvite), "376", IrcJoin), "433", IrcNickCollision)
    {
      this.channel := channel;
      buffer := "";
      handlers := map[];
      lastSend := now;
      pushed := [];
      sentAt := [];
      new;
      AddHandler("PING", IrcPong);
      AddHandler("INVITE", IrcInvite);
      AddHandler("376", IrcJoin);
      AddHandler("433", IrcNickCollision);
    }

    /** `add_handler(event, handler)` (irc.py:79-85). */
    method AddHandler(event: string, h: Handler)
      modifies this`handlers
      ensures handlers == Register(old(handlers), event, h)
    {
      var key := Upper(event);
      if key !in handlers {
        handlers := handlers[key := []];
      }
      handlers := handlers[key := handlers[key] + [h]];
    }

    /** `collect_incoming_data(data)` (irc.py:147-148). */
    method CollectIncomingData(data: string)
      modifies this`buffer
      ensures buffer == old(buffer) + data
    {
      buffer := buffer + data;
    }

    /** `found_terminator()` (irc.py:150-159): the buffer is taken and
        cleared before anything can fail, the line is parsed, and the
        handlers of its command are returned in table order. The command is
        looked up as parsed, without upper-casing. */
    method FoundTerminator() returns (r: Result<(Message, seq<Handler>), PyError>)
      modifies this`buffer
      ensures buffer == ""
      ensures r.Ok? <==> ParseLine(old(buffer)).Ok?
      ensures r.Ok? ==> r.value.0 == ParseLine(old(buffer)).value
      ensures r.Ok? ==> r.value.1 == HandlersOf(handlers, r.value.0.command)
      ensures r.Err? ==> r.error == ParseLine(old(buffer)).error
    {
      var line := buffer;
      buffer := "";
      var message :- ParseLine(line);
      r := Ok((message, HandlersOf(handlers, message.command)));
    }

    /** `throttle()` (irc.py:172-178): sleep until a second has passed
        since the last send, then record the time. */
    method Throttle(now: real) returns (sleep: real)
      modifies this`lastSend
      ensures sleep >= 0.0
      ensures lastSend == now + sleep
      ensures lastSend >= old(lastSend) + MessagesPerSecond
      ensures sleep > 0.0 ==> lastSend == old(lastSend) + MessagesPerSecond
    {
      var elapsed := now - lastSend;
      sleep := 0.0;
      if elapsed < MessagesPerSecond {
        sleep := MessagesPerSecond - elapsed;
      }
      lastSend := now + sleep;
    }

    /** `sender(line)` (irc.py:180-185): throttle, then push the line with
        its terminator; the result is the length of the line. */
    method Sender(line: string, now: real) returns (n: nat)
      requires Spaced()
      modifies this`lastSend, this`pushed, this`sentAt
      ensures pushed == old(pushed) + [line + Terminator]
      ensures lastSend >= old(lastSend) + MessagesPerSecond && lastSend >= now
      ensures n == |line|
      ensures Spaced()
    {
      var _ := Throttle(now);
      pushed := pushed + [line + Terminator];
      sentAt := sentAt + [lastSend];
      n := |line|;
    }

    /** `bot.irc.<name>(*params)`: the command is serialised and sent, or
        the IndexError of a short CTCP call propagates and nothing is sent. */
    method Send(name: string, params: seq<string>, now: real) returns (r: Result<(), PyError>)
      requires Spaced()
      modifies this`lastSend, this`pushed, this`sentAt
      ensures r.Ok? <==> Invoke(name, params).Ok?
      ensures r.Ok? ==> pushed == old(pushed) + [Invoke(name, params).value + Terminator]
      ensures r.Err? ==> pushed == old(pushed) && lastSend == old(lastSend)
      ensures Spaced()
    {
      var line := Invoke(name, params);
      if line.Err? {
        return Err(line.error);
      }
      var _ := Sender(line.value, now);
      r := Ok(());
    }
  }

  /** The table the constructor builds is the one its registrations give. */
  lemma BuiltinTable()
    ensures TableOf(BuiltinHandlers) == Register(Register(Register(Register(map[],
      "PING", IrcPong), "INVITE", IrcInvite), "376", IrcJoin), "433", IrcNickCollision)
  {
    var regs := BuiltinHandlers;
    var t1 := Register(map[], "PING", IrcPong);
    var t2 := Register(t1, "INVITE", IrcInvite);
    var t3 := Register(t2, "376", IrcJoin);
    assert TableOf(regs[..1]) == t1 by {
      assert regs[..1][..0] == [];
    }
    assert TableOf(regs[..2]) == t2 by {
      assert regs[..2][..1] == regs[..1];
    }
    assert TableOf(regs[..3]) == t3 by {
      assert regs[..3][..2] == regs[..2];
    }
    assert regs[..4][..3] == regs[..3] && regs[..4] == regs;
  }
}
