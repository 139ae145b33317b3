/** The few methods of Python's `str` that the formatter and the value
    parsers rely on, over `string` (a sequence of code points). */
module Strings {

  /** Number of occurrences of `c` in `s`. */
  function Count(s: string, c: char): nat
  {
    if s == [] then 0 else Count(s[1..], c) + (if s[0] == c then 1 else 0)
  }

  /** Counting is additive over concatenation. */
  lemma {:induction false} CountAppend(a: string, b: string, c: char)
    ensures Count(a + b, c) == Count(a, c) + Count(b, c)
    decreases |a|
  {
    if a != [] {
      assert (a + b)[1..] == a[1..] + b;
      CountAppend(a[1..], b, c);
    } else {
      assert a + b == b;
    }
  }

  /** A character that does not occur is counted zero times. */
  lemma {:induction false} CountAbsent(s: string, c: char)
    ensures c !in s ==> Count(s, c) == 0
    decreases |s|
  {
    if s != [] && c !in s {
      assert c !in s[1..];
      CountAbsent(s[1..], c);
    }
  }

  /** Python's `s.replace(find, repl)` where both arguments are one character. */
  function ReplaceChar(s: string, find: char, repl: char): (r: string)
    ensures |r| == |s|
    ensures forall i :: 0 <= i < |s| ==> r[i] == if s[i] == find then repl else s[i]
  {
    if s == [] then [] else [if s[0] == find then repl else s[0]] + ReplaceChar(s[1..], find, repl)
  }

  /** After the replacement no `find` is left, unless it is also the replacement. */
  lemma ReplaceCharRemoves(s: string, find: char, repl: char)
    requires find != repl
    ensures find !in ReplaceChar(s, find, repl)
  {
  }

  /** Replacing `find` by a character `repl` that the text never held is
      undone by replacing `repl` back by `find`. */
  lemma ReplaceCharRoundTrip(s: string, find: char, repl: char)
    requires repl !in s
    ensures ReplaceChar(ReplaceChar(s, find, repl), repl, find) == s
  {
    var t := ReplaceChar(ReplaceChar(s, find, repl), repl, find);
    assert forall i :: 0 <= i < |s| ==> t[i] == s[i];
  }

  lemma ReplaceCharAppend(a: string, b: string, find: char, repl: char)
    ensures ReplaceChar(a + b, find, repl) == ReplaceChar(a, find, repl) + ReplaceChar(b, find, repl)
  {
    var l, r := ReplaceChar(a + b, find, repl), ReplaceChar(a, find, repl) + ReplaceChar(b, find, repl);
    assert forall i :: 0 <= i < |a + b| ==> l[i] == r[i];
  }

  /** Python's `sep.join(xs)` for a one-character separator. */
  function Join(sep: char, xs: seq<string>): string
  {
    if |xs| == 0 then ""
    else if |xs| == 1 then xs[0]
    else xs[0] + [sep] + Join(sep, xs[1..])
  }

  /** Joining pieces free of the separator leaves exactly one separator
      between each two of them. */
  lemma {:induction false} JoinCount(sep: char, xs: seq<string>)
    requires forall i :: 0 <= i < |xs| ==> sep !in xs[i]
    ensures Count(Join(sep, xs), sep) == if |xs| == 0 then 0 else |xs| - 1
    decreases |xs|
  {
    if |xs| >= 1 {
      CountAbsent(xs[0], sep);
    }
    if |xs| >= 2 {
      var rest := Join(sep, xs[1..]);
      JoinCount(sep, xs[1..]);
      CountAppend(xs[0] + [sep], rest, sep);
      CountAppend(xs[0], [sep], sep);
      assert Count([sep], sep) == 1;
    }
  }

  /** Python's `s.split(sep)` for a one-character separator: never empty,
      one piece more than there are separators, no piece holds the
      separator, and joining the pieces gives `s` back. */
  function Split(s: string, sep: char): (r: seq<string>)
    ensures |r| == Count(s, sep) + 1
    ensures forall i :: 0 <= i < |r| ==> sep !in r[i]
    ensures Join(sep, r) == s
    decreases |s|
  {
    if s == [] then [""]
    else
      var rest := Split(s[1..], sep);
      if s[0] == sep then
        assert ([""] + rest)[1..] == rest;
        [""] + rest
      else
        var r := [[s[0]] + rest[0]] + rest[1..];
        assert r[1..] == rest[1..];
        assert s == [s[0]] + s[1..];
        r
  }

  /** Splitting text that begins with a separator-free `x` glues `x` to the first piece. */
  lemma {:induction false} SplitPrefix(x: string, y: string, sep: char)
    requires sep !in x
    ensures Split(x + y, sep) == [x + Split(y, sep)[0]] + Split(y, sep)[1..]
    decreases |x|
  {
    if x != [] {
      assert (x + y)[1..] == x[1..] + y;
      assert (x + y)[0] == x[0];
      SplitPrefix(x[1..], y, sep);
      assert [x[0]] + (x[1..] + Split(y, sep)[0]) == x + Split(y, sep)[0];
    } else {
      var r := Split(y, sep);
      assert x + y == y && x + r[0] == r[0];
      assert r == [r[0]] + r[1..];
    }
  }

  /** Splitting undoes joining when no piece holds the separator. */
  lemma {:induction false} SplitJoin(xs: seq<string>, sep: char)
    requires |xs| >= 1
    requires forall i :: 0 <= i < |xs| ==> sep !in xs[i]
    ensures Split(Join(sep, xs), sep) == xs
    decreases |xs|
  {
    if |xs| == 1 {
      SplitPrefix(xs[0], "", sep);
      assert xs[0] + "" == xs[0];
    } else {
      var rest := Join(sep, xs[1..]);
      SplitJoin(xs[1..], sep);
      assert xs[0] + [sep] + rest == xs[0] + ([sep] + rest);
      SplitPrefix(xs[0], [sep] + rest, sep);
      assert ([sep] + rest)[1..] == rest;
      assert Split([sep] + rest, sep) == [""] + xs[1..];
      assert xs[0] + "" == xs[0];
      assert xs == [xs[0]] + xs[1..];
    }
  }

  /** Replacing a character that is not the separator commutes with joining. */
  lemma {:induction false} ReplaceCharJoin(xs: seq<string>, sep: char, find: char, repl: char)
    requires sep != find
    ensures ReplaceChar(Join(sep, xs), find, repl)
         == Join(sep, seq(|xs|, i requires 0 <= i < |xs| => ReplaceChar(xs[i], find, repl)))
    decreases |xs|
  {
    var ys := seq(|xs|, i requires 0 <= i < |xs| => ReplaceChar(xs[i], find, repl));
    if |xs| >= 2 {
      ReplaceCharJoin(xs[1..], sep, find, repl);
      assert ys[1..] == seq(|xs[1..]|, i requires 0 <= i < |xs[1..]| => ReplaceChar(xs[1..][i], find, repl));
      ReplaceCharAppend(xs[0] + [sep], Join(sep, xs[1..]), find, repl);
      ReplaceCharAppend(xs[0], [sep], find, repl);
      assert ReplaceChar([sep], find, repl) == [sep];
    }
  }

  /** Python's `s.lstrip(cs)`: drops the leading characters that are in `cs`. */
  function StripLeading(s: string, cs: set<char>): (r: string)
    ensures |r| <= |s| && r == s[|s| - |r|..]
    ensures r == [] || r[0] !in cs
    ensures forall i :: 0 <= i < |s| - |r| ==> s[i] in cs
  {
    if s == [] || s[0] !in cs then s else StripLeading(s[1..], cs)
  }

  /** Python's `s.rstrip(cs)`: drops the trailing characters that are in `cs`. */
  function StripTrailing(s: string, cs: set<char>): (r: string)
    ensures |r| <= |s| && r == s[..|r|]
    ensures r == [] || r[|r| - 1] !in cs
    ensures forall i :: |r| <= i < |s| ==> s[i] in cs
  {
    if s == [] || s[|s| - 1] !in cs then s else StripTrailing(s[..|s| - 1], cs)
  }

  /** Python's `s.strip(cs)`: neither end of the result is in `cs`, and the
      result is empty only when every character of `s` is in `cs`. */
  function Strip(s: string, cs: set<char>): (r: string)
    ensures r == [] || (r[0] !in cs && r[|r| - 1] !in cs)
    ensures r == [] <==> forall i :: 0 <= i < |s| ==> s[i] in cs
  {
    StripTrailing(StripLeading(s, cs), cs)
  }

  /** Text whose ends are not in `cs` is left as it is. */
  lemma StripUnchanged(s: string, cs: set<char>)
    requires s != [] && s[0] !in cs && s[|s| - 1] !in cs
    ensures Strip(s, cs) == s
  {
  }
}
