/** The line framer of pycat.py (`PyCat.process_data`): text arriving on a
    descriptor is appended to that descriptor's receive buffer, every complete
    '\n'-terminated line is split off in arrival order, empty lines are
    skipped, and the unterminated remainder stays buffered until the next read
    or until end-of-stream flushes it.

    This module holds the value-level meaning of one feed; the stateful
    `PyCat.ProcessData` (relay.dfy) runs the source's loop and is proved equal
    to it. */
module LineFramer {
  import opened Text

  /** The lines the framing loop yields from buffer contents `s`: at each
      step the text before the first '\n' is split off and yielded unless it
      is empty. */
  function FrameLines(s: string): (lines: seq<string>)
    ensures forall k :: 0 <= k < |lines| ==> lines[k] != "" && '\n' !in lines[k]
    decreases |s|
  {
    if '\n' !in s then []
    else
      var i := IndexOf(s, '\n');
      (if i == 0 then [] else [s[..i]]) + FrameLines(s[i + 1..])
  }

  /** What the framing loop leaves in the buffer: the text after the last
      '\n', which holds no '\n' and is a suffix of `s`. */
  function FrameRest(s: string): (rest: string)
    ensures '\n' !in rest
    ensures |rest| <= |s| && rest == s[|s| - |rest|..]
    decreases |s|
  {
    if '\n' !in s then s
    else
      var i := IndexOf(s, '\n');
      var r := FrameRest(s[i + 1..]);
      assert s[i + 1..][|s[i + 1..]| - |r|..] == s[|s| - |r|..];
      r
  }

  /** Every line yielded at end-of-stream: the complete lines, then the
      remainder unless it is empty. */
  function FlushLines(s: string): seq<string>
  {
    FrameLines(s) + (if FrameRest(s) == "" then [] else [FrameRest(s)])
  }

  /** The lines one feed yields from buffer contents `s`: the complete
      lines, and at end-of-stream the remainder as well. */
  function Feed(s: string, eof: bool): seq<string>
  {
    if eof then FlushLines(s) else FrameLines(s)
  }

  /** Every line a feed yields is a non-empty line without its terminator. */
  lemma FeedYieldsLines(s: string, eof: bool)
    ensures forall k :: 0 <= k < |Feed(s, eof)| ==> Feed(s, eof)[k] != "" && '\n' !in Feed(s, eof)[k]
  {
    if eof && FrameRest(s) != "" {
      var lines := FrameLines(s);
      assert Feed(s, eof) == lines + [FrameRest(s)];
      assert forall k :: 0 <= k < |lines| ==> (lines + [FrameRest(s)])[k] == lines[k];
    }
  }

  /** The non-empty strings of `ss`, in order. */
  function NonEmpty(ss: seq<string>): seq<string>
  {
    if ss == [] then []
    else (if ss[0] == "" then [] else [ss[0]]) + NonEmpty(ss[1..])
  }

  /** Each line followed by its '\n' terminator, concatenated. */
  function Terminated(lines: seq<string>): string
  {
    if lines == [] then "" else lines[0] + "\n" + Terminated(lines[1..])
  }

  /** `s` with the terminator of every empty line removed: a '\n' at the very
      start, or right after another '\n', disappears. `atLineStart` says
      whether the text before `s` ended a line. */
  function DropEmptyLines(s: string, atLineStart: bool): string
  {
    if s == [] then ""
    else if s[0] == '\n' then
      (if atLineStart then "" else "\n") + DropEmptyLines(s[1..], true)
    else [s[0]] + DropEmptyLines(s[1..], false)
  }

  /** The first '\n' of `a + b` is the first '\n' of `a` when `a` has one. */
  lemma IndexOfAppend(a: string, b: string)
    requires '\n' in a
    ensures IndexOf(a + b, '\n') == IndexOf(a, '\n')
  {
    var i := IndexOf(a, '\n');
    assert (a + b)[..i] == a[..i];
    assert (a + b)[i] == '\n';
  }

  /** Splitting `x + "\n" + y` at its first '\n' when `x` has none. */
  lemma FirstLine(x: string, y: string)
    requires '\n' !in x
    ensures IndexOf(x + "\n" + y, '\n') == |x|
    ensures (x + "\n" + y)[..|x|] == x && (x + "\n" + y)[|x| + 1..] == y
  {
    var s := x + "\n" + y;
    assert s[..|x|] == x;
    assert s[|x|] == '\n';
  }

  /** A buffer holding a '\n' is its first line, that '\n', and the rest. */
  lemma Decompose(s: string) returns (x: string, y: string)
    requires '\n' in s
    ensures s == x + "\n" + y && '\n' !in x && |y| < |s|
  {
    var i := IndexOf(s, '\n');
    x, y := s[..i], s[i + 1..];
    assert s == s[..i] + [s[i]] + s[i + 1..];
  }

  /** One turn of the framing loop on `x + "\n" + y`. */
  lemma FrameStep(x: string, y: string)
    requires '\n' !in x
    ensures FrameLines(x + "\n" + y) == (if x == "" then [] else [x]) + FrameLines(y)
    ensures FrameRest(x + "\n" + y) == FrameRest(y)
  {
    FirstLine(x, y);
    assert '\n' in x + "\n" + y by {
      assert (x + "\n" + y)[|x|] == '\n';
    }
  }

  /** Chunk-boundary invariance: feeding `a` and then `b` yields exactly the
      lines, and leaves exactly the remainder, that feeding `a + b` at once
      does. */
  lemma {:induction false} FramingIgnoresChunking(a: string, b: string)
    ensures FrameLines(a) + FrameLines(FrameRest(a) + b) == FrameLines(a + b)
    ensures FrameRest(FrameRest(a) + b) == FrameRest(a + b)
    decreases |a|
  {
    if '\n' in a {
      var x, y := DecomposeBefore(a, b);
      FramingIgnoresChunking(y, b);
      ChunkStep(x, y, b);
    }
  }

  /** `Decompose`, with the text `b` that follows kept apart. */
  lemma DecomposeBefore(a: string, b: string) returns (x: string, y: string)
    requires '\n' in a
    ensures a == x + "\n" + y && '\n' !in x && |y| < |a|
    ensures a + b == x + "\n" + (y + b)
  {
    x, y := Decompose(a);
  }

  lemma ChunkStep(x: string, y: string, b: string)
    requires '\n' !in x
    requires FrameLines(y) + FrameLines(FrameRest(y) + b) == FrameLines(y + b)
    requires FrameRest(FrameRest(y) + b) == FrameRest(y + b)
    ensures FrameLines(x + "\n" + y) + FrameLines(FrameRest(x + "\n" + y) + b)
         == FrameLines(x + "\n" + (y + b))
    ensures FrameRest(FrameRest(x + "\n" + y) + b) == FrameRest(x + "\n" + (y + b))
  {
    FrameStep(x, y);
    FrameStep(x, y + b);
    Regroup(if x == "" then [] else [x], FrameLines(y), FrameLines(FrameRest(y) + b));
  }

  /** Dropping empty lines leaves a '\n'-free prefix in place. */
  lemma {:induction false} DropEmptyLinesAfterText(x: string, z: string, atLineStart: bool)
    requires '\n' !in x
    ensures DropEmptyLines(x + z, atLineStart) == x + DropEmptyLines(z, atLineStart && x == "")
    decreases |x|
  {
    if x != [] {
      assert (x + z)[0] == x[0] && (x + z)[1..] == x[1..] + z;
      DropEmptyLinesAfterText(x[1..], z, false);
      assert [x[0]] + (x[1..] + DropEmptyLines(z, false)) == x + DropEmptyLines(z, false);
    } else {
      assert x + z == z;
    }
  }

  /** Re-terminating the yielded lines and appending the retained buffer
      rebuilds the buffered text with only its empty lines removed. */
  lemma {:induction false} FramingReassembles(s: string)
    ensures Terminated(FrameLines(s)) + FrameRest(s) == DropEmptyLines(s, true)
    decreases |s|
  {
    if '\n' !in s {
      DropEmptyLinesAfterText(s, "", true);
      assert s + "" == s;
    } else {
      var x, y := Decompose(s);
      FrameStep(x, y);
      FramingReassembles(y);
      ReassembleStep(x, y, FrameLines(y), FrameRest(y));
    }
  }

  lemma ReassembleStep(x: string, y: string, lines: seq<string>, rest: string)
    requires '\n' !in x
    requires Terminated(lines) + rest == DropEmptyLines(y, true)
    ensures Terminated((if x == "" then [] else [x]) + lines) + rest
         == DropEmptyLines(x + "\n" + y, true)
  {
    DropAfterLine(x, y);
    if x != "" {
      TerminatedCons(x, lines);
      Regroup(x + "\n", Terminated(lines), rest);
    } else {
      assert [] + lines == lines;
    }
  }

  /** Dropping empty lines from `x + "\n" + y`: the terminator of `x` stays
      exactly when `x` is not empty. */
  lemma DropAfterLine(x: string, y: string)
    requires '\n' !in x
    ensures DropEmptyLines(x + "\n" + y, true)
         == (if x == "" then "" else x + "\n") + DropEmptyLines(y, true)
  {
    DropEmptyLinesAfterText(x, "\n" + y, true);
    Regroup(x, "\n", y);
    assert ("\n" + y)[1..] == y;
  }

  lemma TerminatedCons(x: string, lines: seq<string>)
    ensures Terminated([x] + lines) == x + "\n" + Terminated(lines)
  {
    assert ([x] + lines)[1..] == lines;
  }

  /** The framing loop agrees with Python's `split('\n')`: the yielded lines
      are the non-empty pieces before the last one, and the retained buffer is
      the last piece. */
  lemma {:induction false} FramingIsSplit(s: string)
    ensures var parts := Split(s, '\n');
      FrameLines(s) == NonEmpty(parts[..|parts| - 1]) && FrameRest(s) == parts[|parts| - 1]
    decreases |s|
  {
    if '\n' !in s {
      SplitJoin([s], '\n');
      assert Split(s, '\n') == [s];
    } else {
      var x, y := Decompose(s);
      SplitAtSeparator(x, y, '\n');
      FramingIsSplit(y);
      SplitStep(x, y, Split(y, '\n'));
    }
  }

  lemma SplitStep(x: string, y: string, tail: seq<string>)
    requires '\n' !in x && |tail| >= 1
    requires FrameLines(y) == NonEmpty(tail[..|tail| - 1]) && FrameRest(y) == tail[|tail| - 1]
    ensures var parts := [x] + tail;
      FrameLines(x + "\n" + y) == NonEmpty(parts[..|parts| - 1])
      && FrameRest(x + "\n" + y) == parts[|parts| - 1]
  {
    FrameStep(x, y);
    NonEmptyStep(x, tail);
  }

  lemma NonEmptyStep(x: string, tail: seq<string>)
    requires |tail| >= 1
    ensures var parts := [x] + tail;
      NonEmpty(parts[..|parts| - 1]) == (if x == "" then [] else [x]) + NonEmpty(tail[..|tail| - 1])
      && parts[|parts| - 1] == tail[|tail| - 1]
  {
    var init := tail[..|tail| - 1];
    assert ([x] + tail)[..|tail|] == [x] + init;
    assert ([x] + init)[0] == x && ([x] + init)[1..] == init;
  }

  /** What end-of-stream yields in all: every non-empty piece of
      `s.split('\n')`, the unterminated remainder included. */
  lemma FlushIsNonEmptyPieces(s: string)
    ensures FlushLines(s) == NonEmpty(Split(s, '\n'))
  {
    FramingIsSplit(s);
    var parts := Split(s, '\n');
    NonEmptyAppend(parts[..|parts| - 1], [parts[|parts| - 1]]);
    FrontAndLast(parts);
  }

  lemma {:induction false} NonEmptyAppend(a: seq<string>, b: seq<string>)
    ensures NonEmpty(a + b) == NonEmpty(a) + NonEmpty(b)
    decreases |a|
  {
    if a != [] {
      assert (a + b)[0] == a[0] && (a + b)[1..] == a[1..] + b;
      NonEmptyAppend(a[1..], b);
    } else {
      assert a + b == b;
    }
  }
}
