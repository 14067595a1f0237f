/** Newline-terminated text and the lines it is made of. A configuration file
    for the daemon is a sequence of directives, each ended by a line feed. */
module TextLines {
  import opened Seqs

  /** No line in `ls` contains `ch`. */
  predicate LinesAvoid(ls: seq<string>, ch: char)
  {
    forall k :: 0 <= k < |ls| ==> ch !in ls[k]
  }

  /** Each line followed by a single line feed, in order. */
  function JoinLines(ls: seq<string>): (s: string)
    ensures s == [] <==> ls == []
    ensures ls != [] ==> s[|s| - 1] == '\n'
  {
    if ls == [] then [] else ls[0] + "\n" + JoinLines(ls[1..])
  }

  /** Index of the first line feed in `s`, or `|s|` when there is none. */
  function FirstNewline(s: string): (i: nat)
    ensures i <= |s|
    ensures forall k :: 0 <= k < i ==> s[k] != '\n'
    ensures i < |s| ==> s[i] == '\n'
  {
    if s == [] || s[0] == '\n' then 0 else 1 + FirstNewline(s[1..])
  }

  /** The lines of `s`: the pieces between line feeds, where a final line feed
      closes the last line rather than opening an empty one. */
  function SplitLines(s: string): (ls: seq<string>)
    ensures LinesAvoid(ls, '\n')
    decreases |s|
  {
    if s == [] then []
    else
      var i := FirstNewline(s);
      if i == |s| then [s] else [s[..i]] + SplitLines(s[i + 1..])
  }

  lemma {:induction false} JoinLinesAppend(a: seq<string>, b: seq<string>)
    ensures JoinLines(a + b) == JoinLines(a) + JoinLines(b)
  {
    if a != [] {
      assert (a + b)[0] == a[0];
      assert (a + b)[1..] == a[1..] + b;
      JoinLinesAppend(a[1..], b);
      calc {
        JoinLines(a + b);
        a[0] + "\n" + JoinLines(a[1..] + b);
        a[0] + "\n" + (JoinLines(a[1..]) + JoinLines(b));
        (a[0] + "\n" + JoinLines(a[1..])) + JoinLines(b);
        JoinLines(a) + JoinLines(b);
      }
    } else {
      assert a + b == b;
    }
  }

  /** The first line feed after a line free of line feeds is the one that ends it. */
  lemma FirstNewlineAfterLine(l: string, rest: string)
    requires '\n' !in l
    ensures FirstNewline(l + "\n" + rest) == |l|
  {
    var t := l + "\n" + rest;
    assert t[|l|] == '\n';
  }

  /** A line free of line feeds, with its terminator, splits off as the first line. */
  lemma SplitAfterLine(l: string, rest: string)
    requires '\n' !in l
    ensures SplitLines(l + "\n" + rest) == [l] + SplitLines(rest)
  {
    var t := l + "\n" + rest;
    FirstNewlineAfterLine(l, rest);
    assert t[..|l|] == l;
    assert t[|l| + 1..] == rest;
  }

  /** Splitting joined lines gives the lines back, provided none of them
      contains a line feed of its own. */
  lemma {:induction false} SplitJoin(ls: seq<string>)
    requires LinesAvoid(ls, '\n')
    ensures SplitLines(JoinLines(ls)) == ls
  {
    if ls != [] {
      assert '\n' !in ls[0];
      SplitAfterLine(ls[0], JoinLines(ls[1..]));
      SplitJoin(ls[1..]);
      assert ls == [ls[0]] + ls[1..];
    }
  }

  /** A newline-terminated text is its first line, a line feed, and the rest. */
  lemma SplitFirstLine(s: string)
    requires s != [] && s[|s| - 1] == '\n'
    ensures var i := FirstNewline(s);
      i < |s| && SplitLines(s) == [s[..i]] + SplitLines(s[i + 1..]) && s == s[..i] + "\n" + s[i + 1..]
  {
    var i := FirstNewline(s);
    Cut(s, i);
  }

  lemma JoinCons(l: string, ls: seq<string>)
    ensures JoinLines([l] + ls) == l + "\n" + JoinLines(ls)
  {
    assert ([l] + ls)[1..] == ls;
  }

  /** Joining the lines of a newline-terminated text gives the text back. */
  lemma {:induction false} JoinSplit(s: string)
    requires s == [] || s[|s| - 1] == '\n'
    ensures JoinLines(SplitLines(s)) == s
    decreases |s|
  {
    if s != [] {
      SplitFirstLine(s);
      var i := FirstNewline(s);
      var line, rest := s[..i], s[i + 1..];
      assert rest == [] || rest[|rest| - 1] == s[|s| - 1];
      JoinSplit(rest);
      JoinCons(line, SplitLines(rest));
    }
  }

  /** Joined lines that are free of line feeds hold exactly one line feed per line. */
  lemma {:induction false} JoinLinesNewlineCount(ls: seq<string>)
    requires LinesAvoid(ls, '\n')
    ensures multiset(JoinLines(ls))['\n'] == |ls|
  {
    if ls != [] {
      JoinLinesNewlineCount(ls[1..]);
      assert JoinLines(ls) == ls[0] + "\n" + JoinLines(ls[1..]);
      assert multiset(ls[0])['\n'] == 0;
    }
  }

  /** A character other than the line feed occurs in joined lines only if it
      occurs in one of the lines. */
  lemma {:induction false} JoinLinesAvoid(ls: seq<string>, ch: char)
    requires ch != '\n' && LinesAvoid(ls, ch)
    ensures ch !in JoinLines(ls)
  {
    if ls != [] {
      JoinLinesAvoid(ls[1..], ch);
      assert JoinLines(ls) == ls[0] + "\n" + JoinLines(ls[1..]);
    }
  }
}
