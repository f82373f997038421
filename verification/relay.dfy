/** The relay state of pycat.py's `PyCat`: the dispatcher table of the event
    loop, one receive buffer per descriptor, the outbound queue that the
    throttle drains, and the match expression a `--config` reply can set.

    Descriptors are numbers. The IRC library's connection calls
    (`action`, `notice`, `privmsg_many`) are the `Outgoing` values of
    `PyCatText`; with throttling on, each call lands in `sendBuffer` as one
    raw line, and `transmitted` records, in order, what the throttle has
    handed to the real `send_raw`. */
module PyCatRelay {
  import opened Wrappers
  import opened Text
  import opened LineFramer
  import opened PyCatText

  type Descriptor = nat

  /** Which handler the event loop calls for a readable descriptor. */
  datatype Dispatcher =
    | IrcHandler
    | ListenerHandler
    | ReceiverHandler
    | StdoutHandler(target: string)
    | StderrHandler
    | ConfigHandler

  // ---------------------------------------------------------------------
  // handle_send_buffer (pycat.py:182-194): the virtual send clock
  // ---------------------------------------------------------------------

  /** The clock value the throttle starts from: the send timer, moved up to
      `now` when it lags behind. */
  function ClockStart(timer: real, now: real): (t: real)
    ensures t >= timer && t >= now && (t == timer || t == now)
  {
    if timer < now then now else timer
  }

  /** The clock after `j` lines, each of which advances it 2 seconds. */
  function Tick(start: real, j: nat): real {
    start + 2.0 * j as real
  }

  /** How many of `pending` queued lines one call of the throttle sends
      when the clock starts at `start`: one per 2 seconds of clock, while the
      clock is less than 10 seconds ahead of `now`. */
  function SendCount(start: real, now: real, pending: nat): (n: nat)
    ensures n <= pending
    decreases pending
  {
    if pending == 0 || start >= now + 10.0 then 0
    else 1 + SendCount(start + 2.0, now, pending - 1)
  }

  /** The send count is exact: every line sent had the clock within the 10
      second window when it went, and the throttle stops only when the queue
      is empty or the clock has reached the end of the window. */
  lemma {:induction false} SendCountExact(start: real, now: real, pending: nat)
    ensures var n := SendCount(start, now, pending);
      (forall j :: 0 <= j < n ==> Tick(start, j) < now + 10.0)
      && (n == pending || Tick(start, n) >= now + 10.0)
    decreases pending
  {
    if pending > 0 && start < now + 10.0 {
      SendCountExact(start + 2.0, now, pending - 1);
      var n := SendCount(start, now, pending);
      forall j | 0 < j < n ensures Tick(start, j) < now + 10.0 {
        assert Tick(start, j) == Tick(start + 2.0, j - 1);
      }
      assert Tick(start, n) == Tick(start + 2.0, n - 1);
    }
  }

  /** A burst is at most five lines: the clock starts no earlier than `now`
      and every line sent moves it 2 seconds through a 10 second window. */
  lemma SendBurstAtMostFive(start: real, now: real, pending: nat)
    requires start >= now
    ensures SendCount(start, now, pending) <= 5
  {
    SendCountExact(start, now, pending);
    assert Tick(start, 5) >= now + 10.0;
  }

  /** A queue of at most five lines with the clock not ahead of `now` is
      flushed in one call. */
  lemma SendCountFlushesShortQueue(start: real, now: real, pending: nat)
    requires start <= now && pending <= 5
    ensures SendCount(start, now, pending) == pending
  {
    SendCountExact(start, now, pending);
  }

  // ---------------------------------------------------------------------
  // handle_reciver (pycat.py:207-224): what a peer's lines become
  // ---------------------------------------------------------------------

  /** The library calls one relay line makes: resolve the targets, skip an
      empty message, send the rest. */
  function RelayLine(channels: map<string, set<string>>, channel: string, line: string): seq<Outgoing>
  {
    var (targets, message) := ParseTargets(channels, channel, line);
    if message == "" then [] else SendMessage(message, targets)
  }

  /** The library calls a batch of relay lines makes, in line order. */
  function Relayed(channels: map<string, set<string>>, channel: string, lines: seq<string>): seq<Outgoing>
  {
    if lines == [] then []
    else RelayLine(channels, channel, lines[0]) + Relayed(channels, channel, lines[1..])
  }

  lemma {:induction false} RelayedAppend(channels: map<string, set<string>>, channel: string,
                                         lines: seq<string>, line: string)
    ensures Relayed(channels, channel, lines + [line])
         == Relayed(channels, channel, lines) + RelayLine(channels, channel, line)
    decreases |lines|
  {
    if lines == [] {
      assert [] + [line] == [line];
      assert Relayed(channels, channel, []) == [];
    } else {
      assert (lines + [line])[0] == lines[0];
      assert (lines + [line])[1..] == lines[1..] + [line];
      RelayedAppend(channels, channel, lines[1..], line);
      Regroup(RelayLine(channels, channel, lines[0]), Relayed(channels, channel, lines[1..]),
              RelayLine(channels, channel, line));
    }
  }

  /** Every call a relay line makes says that line's message and is
      addressed only to users of the tracked channel or the channel itself;
      a line whose message is empty makes no call at all. */
  lemma RelayLineReachesOnlyAllowed(channels: map<string, set<string>>, channel: string, line: string)
    ensures var (targets, message) := ParseTargets(channels, channel, line);
      var out := RelayLine(channels, channel, line);
      (message == "" ==> out == [])
      && (forall k :: 0 <= k < |out| ==> Said(out[k]) == message)
      && (channel in channels ==>
            forall k, t :: 0 <= k < |out| && t in Reached(out[k]) ==> t in channels[channel] + {channel})
      && (channel !in channels ==> forall k :: 0 <= k < |out| ==> Reached(out[k]) == [])
  {
    var (targets, message) := ParseTargets(channels, channel, line);
    TargetsAreAllowed(channels, channel, line);
    SendMessageSaysMessage(message, targets);
  }

  // ---------------------------------------------------------------------
  // handle_config (pycat.py:263-279): the last `match = ...` line wins
  // ---------------------------------------------------------------------

  /** A reply line that sets the match expression. */
  predicate SetsMatch(line: string) {
    ParseConfigLine(line).Some? && ParseConfigLine(line).value.0 == "match"
  }

  /** The match expression after one `--config` reply line: a line that
      parses as `match = value` replaces it; an invalid line or another key
      leaves it. */
  function MatchStep(current: string, line: string): (next: string)
    ensures SetsMatch(line) ==> next == ParseConfigLine(line).value.1
    ensures !SetsMatch(line) ==> next == current
  {
    match ParseConfigLine(line)
    case Some((key, value)) => if key == "match" then value else current
    case None => current
  }

  /** The match expression after a batch of reply lines, in order. */
  function MatchAfter(current: string, lines: seq<string>): string
    decreases |lines|
  {
    if lines == [] then current else MatchAfter(MatchStep(current, lines[0]), lines[1..])
  }

  lemma {:induction false} MatchAfterConcat(current: string, a: seq<string>, b: seq<string>)
    ensures MatchAfter(current, a + b) == MatchAfter(MatchAfter(current, a), b)
    decreases |a|
  {
    if a == [] {
      assert a + b == b;
    } else {
      assert (a + b)[0] == a[0];
      assert (a + b)[1..] == a[1..] + b;
      MatchAfterConcat(MatchStep(current, a[0]), a[1..], b);
    }
  }

  /** A batch without a valid `match` line keeps the expression. */
  lemma {:induction false} MatchAfterNoSetter(current: string, lines: seq<string>)
    requires forall k :: 0 <= k < |lines| ==> !SetsMatch(lines[k])
    ensures MatchAfter(current, lines) == current
    decreases |lines|
  {
    if lines != [] {
      assert !SetsMatch(lines[0]);
      assert forall k :: 0 <= k < |lines| - 1 ==> lines[1..][k] == lines[k + 1];
      MatchAfterNoSetter(current, lines[1..]);
    }
  }

  /** Otherwise the last valid `match` line wins. */
  lemma MatchAfterLastWins(current: string, lines: seq<string>, k: nat)
    requires k < |lines| && SetsMatch(lines[k])
    requires forall j :: k < j < |lines| ==> !SetsMatch(lines[j])
    ensures MatchAfter(current, lines) == ParseConfigLine(lines[k]).value.1
  {
    var before, after := lines[..k], lines[k + 1..];
    assert lines == before + [lines[k]] + after;
    MatchAfterConcat(current, before + [lines[k]], after);
    MatchAfterConcat(current, before, [lines[k]]);
    assert forall j :: 0 <= j < |after| ==> after[j] == lines[k + 1 + j];
    MatchAfterNoSetter(ParseConfigLine(lines[k]).value.1, after);
  }

  // ---------------------------------------------------------------------
  // The relay object
  // ---------------------------------------------------------------------

  class PyCat {
    /** The channel the relay joins and speaks in by default. */
    const channel: string
    /** The joined channels and their users, as the IRC library tracks them. */
    var channels: map<string, set<string>>
    /** The expression a public message must match to start the script. */
    var matchExpr: string
    var dispatchers: map<Descriptor, Dispatcher>
    var ircSocket: Option<Descriptor>
    var sendTimer: real
    var sendBuffer: seq<Outgoing>
    var transmitted: seq<Outgoing>
    var recvBuffers: map<Descriptor, string>

    /** Every retained receive buffer is an unterminated partial line. */
    predicate Valid()
      reads this
    {
      forall d :: d in recvBuffers ==> '\n' !in recvBuffers[d]
    }

    /** The state `__init__` sets up (pycat.py:87-100); no listener, no
        connection yet. */
    constructor(channel: string)
      ensures this.channel == channel && channels == map[] && matchExpr == "^!"
      ensures dispatchers == map[] && ircSocket == None
      ensures sendTimer == 0.0 && sendBuffer == [] && transmitted == [] && recvBuffers == map[]
      ensures Valid()
    {
      this.channel := channel;
      channels := map[];
      matchExpr := "^!";
      dispatchers := map[];
      ircSocket := None;
      sendTimer := 0.0;
      sendBuffer := [];
      transmitted := [];
      recvBuffers := map[];
    }

    /** The buffer contents a feed of `data` on `sock` starts from. */
    function Buffered(sock: Descriptor, data: string): string
      reads this
    {
      (if sock in recvBuffers then recvBuffers[sock] else "") + data
    }

    /** `process_data(sock, data)`: append `data` to the descriptor's
        buffer and split off its complete non-empty lines, in order. A
        zero-length read (end of stream) also yields a non-empty remainder
        and drops the descriptor's buffer and dispatcher; deleting a
        dispatcher that is not there is a KeyError, hence the requires. */
    method ProcessData(sock: Descriptor, data: string) returns (lines: seq<string>)
      requires data == "" ==> sock in dispatchers
      modifies this`recvBuffers, this`dispatchers
      ensures lines == Feed(old(Buffered(sock, data)), data == "")
      ensures data != "" ==>
        recvBuffers == old(recvBuffers)[sock := FrameRest(old(Buffered(sock, data)))]
        && dispatchers == old(dispatchers)
      ensures data == "" ==>
        recvBuffers == old(recvBuffers) - {sock} && dispatchers == old(dispatchers) - {sock}
      ensures old(Valid()) ==> Valid()
    {
      var buf := (if sock in recvBuffers then recvBuffers[sock] else "") + data;
      var rest;
      lines, rest := SplitLines(buf);
      if data != "" {
        recvBuffers := recvBuffers[sock := rest];
      } else {
        recvBuffers := recvBuffers - {sock};
        dispatchers := dispatchers - {sock};
        if rest != "" {
          lines := lines + [rest];
        }
      }
    }

    /** `handle_send_buffer(now)`: move the clock up to `now` if it lags,
        then hand queued lines to the connection in FIFO order, 2 seconds of
        clock each, while the clock is less than 10 seconds ahead. */
    method HandleSendBuffer(now: real)
      modifies this`sendTimer, this`sendBuffer, this`transmitted
      ensures old(sendBuffer) == [] ==> sendTimer == old(sendTimer) && transmitted == old(transmitted)
      ensures old(sendBuffer) != [] ==>
        var start := ClockStart(old(sendTimer), now);
        var n := SendCount(start, now, |old(sendBuffer)|);
        sendTimer == Tick(start, n)
        && transmitted == old(transmitted) + old(sendBuffer)[..n]
        && sendBuffer == old(sendBuffer)[n..]
      ensures sendBuffer == [] || sendTimer >= now + 10.0
      ensures |old(sendBuffer)| - |sendBuffer| <= 5
      ensures old(sendBuffer) == transmitted[|old(transmitted)|..] + sendBuffer
    {
      if sendBuffer == [] {
        return;
      }
      if sendTimer < now {
        sendTimer := now;
      }
      ghost var start := sendTimer;
      ghost var queued := sendBuffer;
      ghost var sent := 0;
      while sendTimer < now + 10.0 && sendBuffer != []
        invariant 0 <= sent <= |queued|
        invariant sendBuffer == queued[sent..]
        invariant transmitted == old(transmitted) + queued[..sent]
        invariant sendTimer == Tick(start, sent)
        invariant SendCount(start, now, |queued|) == sent + SendCount(sendTimer, now, |sendBuffer|)
        decreases |sendBuffer|
      {
        sendTimer := sendTimer + 2.0;
        var line := sendBuffer[0];
        sendBuffer := sendBuffer[1..];
        transmitted := transmitted + [line];
        assert queued[..sent + 1] == queued[..sent] + [queued[sent]];
        sent := sent + 1;
      }
      assert SendCount(sendTimer, now, |sendBuffer|) == 0;
      assert sent == SendCount(start, now, |queued|);
      SendBurstAtMostFive(start, now, |queued|);
    }

    /** `handle_reciver(sock)` after `recv` returned `data`: each line the
        framer yields is resolved and, unless its message is empty, relayed
        through the throttled connection. */
    method HandleReceiver(sock: Descriptor, data: string) returns (lines: seq<string>)
      requires data == "" ==> sock in dispatchers
      modifies this`recvBuffers, this`dispatchers, this`sendBuffer
      ensures lines == Feed(old(Buffered(sock, data)), data == "")
      ensures sendBuffer == old(sendBuffer) + Relayed(channels, channel, lines)
      ensures data != "" ==>
        recvBuffers == old(recvBuffers)[sock := FrameRest(old(Buffered(sock, data)))]
        && dispatchers == old(dispatchers)
      ensures data == "" ==>
        recvBuffers == old(recvBuffers) - {sock} && dispatchers == old(dispatchers) - {sock}
      ensures old(Valid()) ==> Valid()
    {
      lines := ProcessData(sock, data);
      var out := RelayLines(channels, channel, lines);
      sendBuffer := sendBuffer + out;
    }

    /** `handle_stdout(sock, target)` after `read` returned `data`: every
        line the script prints is said to `target`. */
    method HandleStdout(sock: Descriptor, target: string, data: string) returns (lines: seq<string>)
      requires data == "" ==> sock in dispatchers
      modifies this`recvBuffers, this`dispatchers, this`sendBuffer
      ensures lines == Feed(old(Buffered(sock, data)), data == "")
      ensures sendBuffer == old(sendBuffer) + ScriptOutput(target, lines)
      ensures data != "" ==>
        recvBuffers == old(recvBuffers)[sock := FrameRest(old(Buffered(sock, data)))]
        && dispatchers == old(dispatchers)
      ensures data == "" ==>
        recvBuffers == old(recvBuffers) - {sock} && dispatchers == old(dispatchers) - {sock}
      ensures old(Valid()) ==> Valid()
    {
      lines := ProcessData(sock, data);
      var out := ScriptLines(target, lines);
      sendBuffer := sendBuffer + out;
    }

    /** `handle_stderr(sock)` after `read` returned `data`: the lines are
        only logged, so they are returned. */
    method HandleStderr(sock: Descriptor, data: string) returns (lines: seq<string>)
      requires data == "" ==> sock in dispatchers
      modifies this`recvBuffers, this`dispatchers
      ensures lines == Feed(old(Buffered(sock, data)), data == "")
      ensures data != "" ==>
        recvBuffers == old(recvBuffers)[sock := FrameRest(old(Buffered(sock, data)))]
        && dispatchers == old(dispatchers)
      ensures data == "" ==>
        recvBuffers == old(recvBuffers) - {sock} && dispatchers == old(dispatchers) - {sock}
      ensures old(Valid()) ==> Valid()
    {
      lines := ProcessData(sock, data);
    }

    /** `handle_config(sock)` after `read` returned `data`: every reply line
        of the form `match = value` sets the match expression. */
    method HandleConfig(sock: Descriptor, data: string) returns (lines: seq<string>)
      requires data == "" ==> sock in dispatchers
      modifies this`recvBuffers, this`dispatchers, this`matchExpr
      ensures lines == Feed(old(Buffered(sock, data)), data == "")
      ensures matchExpr == MatchAfter(old(matchExpr), lines)
      ensures data != "" ==>
        recvBuffers == old(recvBuffers)[sock := FrameRest(old(Buffered(sock, data)))]
        && dispatchers == old(dispatchers)
      ensures data == "" ==>
        recvBuffers == old(recvBuffers) - {sock} && dispatchers == old(dispatchers) - {sock}
      ensures old(Valid()) ==> Valid()
    {
      lines := ProcessData(sock, data);
      matchExpr := ApplyConfig(matchExpr, lines);
    }

    /** The successful path of `_connect` (pycat.py:455-457): the
        connection's socket is dispatched to the IRC handler. */
    method Connected(sock: Descriptor)
      modifies this`dispatchers, this`ircSocket
      ensures dispatchers == old(dispatchers)[sock := IrcHandler] && ircSocket == Some(sock)
    {
      dispatchers := dispatchers[sock := IrcHandler];
      ircSocket := Some(sock);
    }

    /** `on_disconnect`: the IRC socket leaves the dispatcher table, if it
        is there, and every queued line is discarded. */
    method OnDisconnect()
      modifies this`dispatchers, this`sendBuffer
      ensures ircSocket.Some? ==> dispatchers == old(dispatchers) - {ircSocket.value}
      ensures ircSocket.None? ==> dispatchers == old(dispatchers)
      ensures sendBuffer == []
    {
      if ircSocket.Some? && ircSocket.value in dispatchers {
        dispatchers := dispatchers - {ircSocket.value};
      }
      sendBuffer := [];
    }
  }

  /** `line, trailing = buf.split('\n', 1)` on a buffer holding a '\n'. */
  method SplitFirstLine(buf: string) returns (line: string, trailing: string)
    requires '\n' in buf
    ensures buf == line + "\n" + trailing && '\n' !in line
    ensures FrameLines(buf) == (if line == "" then [] else [line]) + FrameLines(trailing)
    ensures FrameRest(buf) == FrameRest(trailing)
  {
    var i := IndexOf(buf, '\n');
    line, trailing := buf[..i], buf[i + 1..];
    assert buf == buf[..i] + [buf[i]] + buf[i + 1..];
    FrameStep(line, trailing);
  }

  /** The framing loop of `process_data` (pycat.py:314-319) on the buffer
      contents: while the buffer holds a '\n', cut the first line off and
      yield it unless it is empty; what is left is the new buffer. */
  method SplitLines(buf: string) returns (lines: seq<string>, rest: string)
    ensures lines == FrameLines(buf) && rest == FrameRest(buf)
    ensures '\n' !in rest
  {
    lines, rest := [], buf;
    while '\n' in rest
      invariant lines + FrameLines(rest) == FrameLines(buf)
      invariant FrameRest(rest) == FrameRest(buf)
      decreases |rest|
    {
      var line, trailing := SplitFirstLine(rest);
      LinesStep(lines, line, FrameLines(trailing));
      rest := trailing;
      if line != "" {
        lines := lines + [line];
      }
    }
    NoLineLeft(lines, rest, buf);
  }

  lemma LinesStep(lines: seq<string>, line: string, rest: seq<string>)
    ensures lines + ((if line == "" then [] else [line]) + rest)
         == (if line == "" then lines else lines + [line]) + rest
  {
    if line == "" {
      assert [] + rest == rest;
    } else {
      Regroup(lines, [line], rest);
    }
  }

  /** Once the buffer holds no '\n' the loop has yielded every line and the
      buffer is the remainder. */
  lemma NoLineLeft(lines: seq<string>, buf: string, s: string)
    requires '\n' !in buf
    requires lines + FrameLines(buf) == FrameLines(s) && FrameRest(buf) == FrameRest(s)
    ensures lines == FrameLines(s) && buf == FrameRest(s)
  {
    assert lines + [] == lines;
  }

  /** The relaying loop of `handle_reciver` (pycat.py:211-222): every line
      is resolved and, unless its message is empty, sent. */
  method RelayLines(channels: map<string, set<string>>, channel: string, lines: seq<string>)
    returns (out: seq<Outgoing>)
    ensures out == Relayed(channels, channel, lines)
  {
    out := [];
    for i := 0 to |lines|
      invariant out == Relayed(channels, channel, lines[..i])
    {
      var (targets, message) := ParseTargets(channels, channel, lines[i]);
      if message != "" {
        out := out + SendMessage(message, targets);
      }
      RelayedSnoc(channels, channel, lines, i);
    }
    assert lines[..|lines|] == lines;
  }

  lemma RelayedSnoc(channels: map<string, set<string>>, channel: string, lines: seq<string>, i: nat)
    requires i < |lines|
    ensures Relayed(channels, channel, lines[..i + 1])
         == Relayed(channels, channel, lines[..i]) + RelayLine(channels, channel, lines[i])
  {
    assert lines[..i + 1] == lines[..i] + [lines[i]];
    RelayedAppend(channels, channel, lines[..i], lines[i]);
  }

  /** The loop of `handle_stdout` (pycat.py:230-232): every printed line is
      said to the target. */
  method ScriptLines(target: string, lines: seq<string>) returns (out: seq<Outgoing>)
    ensures out == ScriptOutput(target, lines)
  {
    out := [];
    for i := 0 to |lines|
      invariant out == ScriptOutput(target, lines[..i])
    {
      out := out + SendMessage(lines[i], [target]);
      ScriptOutputSnoc(target, lines, i);
    }
    assert lines[..|lines|] == lines;
  }

  lemma ScriptOutputSnoc(target: string, lines: seq<string>, i: nat)
    requires i < |lines|
    ensures ScriptOutput(target, lines[..i + 1])
         == ScriptOutput(target, lines[..i]) + SendMessage(lines[i], [target])
  {
    assert lines[..i + 1] == lines[..i] + [lines[i]];
    ScriptOutputAppend(target, lines[..i], lines[i]);
  }

  /** The loop of `handle_config` (pycat.py:266-279): each reply line of the
      form `match = value` replaces the match expression. */
  method ApplyConfig(current: string, lines: seq<string>) returns (m: string)
    ensures m == MatchAfter(current, lines)
  {
    m := current;
    for i := 0 to |lines|
      invariant m == MatchAfter(current, lines[..i])
    {
      var parsed := ParseConfigLine(lines[i]);
      if parsed.Some? && parsed.value.0 == "match" {
        m := parsed.value.1;
      }
      MatchAfterSnoc(current, lines, i);
    }
    assert lines[..|lines|] == lines;
  }

  lemma MatchAfterSnoc(current: string, lines: seq<string>, i: nat)
    requires i < |lines|
    ensures MatchAfter(current, lines[..i + 1]) == MatchStep(MatchAfter(current, lines[..i]), lines[i])
  {
    assert lines[..i + 1] == lines[..i] + [lines[i]];
    MatchAfterConcat(current, lines[..i], [lines[i]]);
    assert [lines[i]][1..] == [];
  }

  /** The library calls the script's printed lines make: each is said to
      the one target. */
  function ScriptOutput(target: string, lines: seq<string>): seq<Outgoing>
  {
    if lines == [] then [] else SendMessage(lines[0], [target]) + ScriptOutput(target, lines[1..])
  }

  lemma {:induction false} ScriptOutputAppend(target: string, lines: seq<string>, line: string)
    ensures ScriptOutput(target, lines + [line]) == ScriptOutput(target, lines) + SendMessage(line, [target])
    decreases |lines|
  {
    if lines == [] {
      assert [] + [line] == [line];
      assert ScriptOutput(target, []) == [];
    } else {
      assert (lines + [line])[0] == lines[0];
      assert (lines + [line])[1..] == lines[1..] + [line];
      ScriptOutputAppend(target, lines[1..], line);
      Regroup(SendMessage(lines[0], [target]), ScriptOutput(target, lines[1..]), SendMessage(line, [target]));
    }
  }
}
