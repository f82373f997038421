/** The handful of Python string operations the relay relies on, written out
    with Python's semantics: `str.split(sep)` with a one-character separator,
    `sep.join(parts)`, `str.lstrip(chars)`, `str.startswith`, the `in`
    substring test and ASCII `str.upper`. */
module Text {

  /** The index of the first `c` in `s`, or `|s|` when `s` has none. */
  function IndexOf(s: string, c: char): (i: nat)
    ensures i <= |s|
    ensures i < |s| ==> s[i] == c
    ensures c !in s[..i]
    ensures i == |s| <==> c !in s
  {
    if s == [] then 0
    else if s[0] == c then 0
    else 1 + IndexOf(s[1..], c)
  }

  /** Python's `s.split(c)`: the pieces between the occurrences of `c`,
      always at least one (`"".split(c) == [""]`). */
  function Split(s: string, c: char): (parts: seq<string>)
    ensures |parts| >= 1
    ensures forall k :: 0 <= k < |parts| ==> c !in parts[k]
    decreases |s|
  {
    if s == [] then [""]
    else
      var tail := Split(s[1..], c);
      if s[0] == c then [""] + tail
      else [[s[0]] + tail[0]] + tail[1..]
  }

  /** Python's `c.join(parts)` for a one-character separator. */
  function Join(parts: seq<string>, c: char): string
  {
    if parts == [] then ""
    else if |parts| == 1 then parts[0]
    else parts[0] + [c] + Join(parts[1..], c)
  }

  /** Joining the pieces of a split with the same separator gives back the
      string: `c.join(s.split(c)) == s`. */
  lemma {:induction false} JoinSplit(s: string, c: char)
    ensures Join(Split(s, c), c) == s
    decreases |s|
  {
    if s != [] {
      var tail := Split(s[1..], c);
      JoinSplit(s[1..], c);
      if s[0] == c {
        assert Split(s, c) == [""] + tail;
        assert ([""] + tail)[1..] == tail;
      } else {
        var parts := [[s[0]] + tail[0]] + tail[1..];
        assert Split(s, c) == parts;
        if |tail| == 1 {
          assert Join(tail, c) == tail[0];
        } else {
          assert parts[1..] == tail[1..];
          assert Join(tail, c) == tail[0] + [c] + Join(tail[1..], c);
        }
      }
    }
  }

  /** Splitting a string that begins with a separator-free word `w` glues `w`
      onto the first piece of the rest. */
  lemma {:induction false} SplitAfterWord(w: string, rest: string, c: char)
    requires c !in w
    ensures Split(w + rest, c) == [w + Split(rest, c)[0]] + Split(rest, c)[1..]
    decreases |w|
  {
    if w != [] {
      assert (w + rest)[1..] == w[1..] + rest;
      SplitAfterWord(w[1..], rest, c);
      assert [w[0]] + (w[1..] + Split(rest, c)[0]) == w + Split(rest, c)[0];
    } else {
      var parts := Split(rest, c);
      assert w + rest == rest && w + parts[0] == parts[0];
      assert parts == [parts[0]] + parts[1..];
    }
  }

  /** Splitting a join of separator-free pieces gives back the pieces:
      `c.join(parts).split(c) == parts`. */
  lemma {:induction false} SplitJoin(parts: seq<string>, c: char)
    requires |parts| >= 1
    requires forall k :: 0 <= k < |parts| ==> c !in parts[k]
    ensures Split(Join(parts, c), c) == parts
    decreases |parts|
  {
    if |parts| == 1 {
      SplitAfterWord(parts[0], "", c);
      assert parts[0] + "" == parts[0];
    } else {
      var rest := Join(parts[1..], c);
      SplitJoin(parts[1..], c);
      assert Split([c] + rest, c) == [""] + Split(rest, c);
      assert parts[0] + [c] + rest == parts[0] + ([c] + rest);
      SplitAfterWord(parts[0], [c] + rest, c);
      assert ([""] + Split(rest, c))[1..] == parts[1..];
      assert parts[0] + "" == parts[0];
      assert parts == [parts[0]] + parts[1..];
    }
  }

  /** Splitting `x + [c] + y` when `x` holds no `c`: `x` is the first
      piece and the pieces of `y` follow. */
  lemma SplitAtSeparator(x: string, y: string, c: char)
    requires c !in x
    ensures Split(x + [c] + y, c) == [x] + Split(y, c)
  {
    assert x + [c] + y == x + ([c] + y);
    SplitAfterWord(x, [c] + y, c);
    assert ([c] + y)[1..] == y;
    assert Split([c] + y, c) == [""] + Split(y, c);
    assert x + "" == x;
  }

  /** Concatenation regroups; stated once so that proofs about the
      functions below need not rediscover it element by element. */
  lemma Regroup<T>(a: seq<T>, b: seq<T>, c: seq<T>)
    ensures a + b + c == a + (b + c)
  {
  }

  /** A non-empty sequence is its front and its last element. */
  lemma FrontAndLast<T>(s: seq<T>)
    requires |s| >= 1
    ensures s == s[..|s| - 1] + [s[|s| - 1]]
  {
  }

  /** The first `c` of `x + [c] + y` when `x` holds none. */
  lemma IndexOfAfter(x: string, c: char, y: string)
    requires c !in x
    ensures IndexOf(x + [c] + y, c) == |x|
    ensures (x + [c] + y)[..|x|] == x && (x + [c] + y)[|x| + 1..] == y
  {
    var s := x + [c] + y;
    assert s[..|x|] == x;
    assert s[|x|] == c;
    assert s[|x| + 1..] == y;
  }

  /** A string holding `c` is the text before its first `c`, that `c`, and
      the text after. */
  lemma SplitAtFirst(s: string, c: char)
    requires c in s
    ensures s == s[..IndexOf(s, c)] + [c] + s[IndexOf(s, c) + 1..]
  {
    var i := IndexOf(s, c);
    assert s == s[..i] + [s[i]] + s[i + 1..];
  }

  lemma LStripStops(s: string, c: char)
    requires s == [] || s[0] != c
    ensures LStrip(s, c) == s
  {
  }

  lemma LStripSkips(c: char, s: string)
    ensures LStrip([c] + s, c) == LStrip(s, c)
  {
    assert ([c] + s)[1..] == s;
  }

  /** Python's `s.startswith(p)`. */
  predicate StartsWith(s: string, p: string) {
    |p| <= |s| && s[..|p|] == p
  }

  /** Python's `sub in s` for strings. */
  predicate Contains(s: string, sub: string)
    decreases |s|
  {
    StartsWith(s, sub) || (s != [] && Contains(s[1..], sub))
  }

  /** Python's `s.lstrip(c)` for a single character: drops every leading `c`. */
  function LStrip(s: string, c: char): (r: string)
    ensures r == [] || r[0] != c
    ensures |r| <= |s| && r == s[|s| - |r|..]
    ensures forall k :: 0 <= k < |s| - |r| ==> s[k] == c
  {
    if s != [] && s[0] == c then LStrip(s[1..], c) else s
  }

  function UpperChar(ch: char): char {
    if 'a' <= ch <= 'z' then (ch as int - 32) as char else ch
  }

  /** Python's `str.upper()` on the ASCII names the bot uses for commands and
      events. */
  function Upper(s: string): (r: string)
    ensures |r| == |s|
    ensures forall k :: 0 <= k < |s| ==> r[k] == UpperChar(s[k])
  {
    seq(|s|, k requires 0 <= k < |s| => UpperChar(s[k]))
  }
}
