/** Worked examples: the command lines of the repository's integration
    tests, stated for arbitrary words where the tests use `ls`, `-l`,
    `true` or `/dev/null`, and derived from the general lemmas about the
    parser. */
module ParseExamples {
  import opened Results
  import opened Text
  import opened Shell

  // ---------------------------------------------------------------------
  // Steps shared by the examples

  /** Trimming stops at once at a non-whitespace end. */
  lemma TrimStartKeeps(s: string)
    requires |s| > 0 && !IsSpace(s[0])
    ensures TrimStart(s) == s
  {
  }

  lemma TrimEndKeeps(s: string)
    requires |s| > 0 && !IsSpace(s[|s| - 1])
    ensures TrimEnd(s) == s
  {
  }

  /** Trailing whitespace is dropped one character at a time. */
  lemma TrimEndDrops(s: string)
    requires |s| > 0 && IsSpace(s[|s| - 1])
    ensures TrimEnd(s) == TrimEnd(s[..|s| - 1])
  {
  }

  /** A line as read from the terminal: its text, then whitespace up to
      and including the newline. With the text free of surrounding
      whitespace, trimming leaves exactly the text. */
  lemma {:induction false} TrimLine(s: string, tail: string)
    requires |s| > 0 && !IsSpace(s[0]) && !IsSpace(s[|s| - 1])
    requires AllSpace(tail)
    ensures Trim(s + tail) == s
    decreases |tail|
  {
    var line := s + tail;
    TrimStartKeeps(line);
    if |tail| == 0 {
      assert line == s;
      TrimEndKeeps(s);
    } else {
      TrimEndDrops(line);
      assert line[..|line| - 1] == s + tail[..|tail| - 1];
      TrimLine(s, tail[..|tail| - 1]);
      TrimStartKeeps(s + tail[..|tail| - 1]);
    }
  }

  /** The segments of such a line are the `|`-separated parts of its text. */
  lemma LineSegments(s: string, tail: string, parts: seq<string>)
    requires |s| > 0 && !IsSpace(s[0]) && !IsSpace(s[|s| - 1])
    requires AllSpace(tail)
    requires |parts| > 0 && forall p :: p in parts ==> '|' !in p
    requires Join(parts, "|") == s
    ensures Segments(s + tail) == parts
  {
    TrimLine(s, tail);
    JoinSplit(parts, '|');
  }

  /** Words between runs of whitespace tokenize to themselves. */
  lemma Spaced(pre: string, ws: seq<string>, post: string)
    requires AllSpace(pre) && AllSpace(post)
    requires forall w :: w in ws ==> IsWord(w)
    ensures Tokens(pre + Join(ws, " ") + post) == ws
  {
    TokensOfJoin(ws);
    TokensTrailingSpace(Join(ws, " "), post);
    TokensLeadingSpace(pre, Join(ws, " ") + post);
    assert pre + Join(ws, " ") + post == pre + (Join(ws, " ") + post);
  }

  /** A word, or two or three words separated by single spaces, with
      whitespace around them, tokenizes to those words. */
  lemma OneWord(x: string, pre: string, a: string, post: string)
    requires x == pre + a + post
    requires AllSpace(pre) && AllSpace(post) && IsWord(a)
    ensures Tokens(x) == [a]
  {
    Spaced(pre, [a], post);
  }

  lemma TwoWords(x: string, pre: string, a: string, b: string, post: string)
    requires x == pre + a + " " + b + post
    requires AllSpace(pre) && AllSpace(post) && IsWord(a) && IsWord(b)
    ensures Tokens(x) == [a, b]
  {
    assert Join([a, b], " ") == a + " " + b;
    Spaced(pre, [a, b], post);
    assert pre + (a + " " + b) + post == x;
  }

  lemma ThreeWords(x: string, pre: string, a: string, b: string, c: string, post: string)
    requires x == pre + a + " " + b + " " + c + post
    requires AllSpace(pre) && AllSpace(post) && IsWord(a) && IsWord(b) && IsWord(c)
    ensures Tokens(x) == [a, b, c]
  {
    assert Join([a, b, c], " ") == a + " " + b + " " + c by {
      assert [a, b, c][1..] == [b, c];
      assert Join([b, c], " ") == b + " " + c;
    }
    Spaced(pre, [a, b, c], post);
    assert pre + (a + " " + b + " " + c) + post == x;
  }

  /** Words free of both operators, joined by spaces, stay free of them. */
  lemma {:induction false} JoinOfArgs(ws: seq<string>)
    requires forall w :: w in ws ==> IsArg(w)
    ensures '|' !in Join(ws, " ") && '>' !in Join(ws, " ")
  {
    if |ws| > 1 {
      assert IsArg(ws[0]);
      JoinOfArgs(ws[1..]);
    } else if |ws| == 1 {
      assert IsArg(ws[0]);
    }
  }

  /** Words free of both operators, joined by spaces and ended by a
      newline, give back the words and no operator. */
  lemma ArgsLine(ws: seq<string>)
    requires forall w :: w in ws ==> IsArg(w)
    ensures var line := Join(ws, " ") + "\n";
      Tokens(line) == ws && '|' !in line && '>' !in line
  {
    JoinOfArgs(ws);
    TokensOfJoin(ws);
    TokensTrailingSpace(Join(ws, " "), "\n");
  }

  /** One loop step over a segment without `>` that has words. */
  lemma PlainStep(segs: seq<string>, n: nat, acc: List)
    requires |segs| > 0 && '>' !in segs[0] && Tokens(segs[0]) != []
    ensures ParseLoop(segs, n, acc)
      == ParseLoop(segs[1..], n, Cons(MakeCmd(Tokens(segs[0]), None), acc))
  {
    CountOfZero(segs[0], '>');
    TokensTrim(segs[0]);
  }

  /** One loop step over a blank segment of a line with several segments. */
  lemma BlankStep(segs: seq<string>, n: nat, acc: List)
    requires |segs| > 0 && '>' !in segs[0] && Tokens(segs[0]) == [] && n > 1
    ensures ParseLoop(segs, n, acc) == Err(UnexpectedPipe)
  {
    CountOfZero(segs[0], '>');
    TokensTrim(segs[0]);
  }

  /** One loop step over a segment `before > after` that has words. */
  lemma RedirectStep(segs: seq<string>, before: string, after: string, n: nat, acc: List)
    requires |segs| > 0 && segs[0] == before + ">" + after
    requires '>' !in before && '>' !in after
    requires Tokens(after) != [] && Tokens(before) + Tokens(after)[1..] != []
    ensures ParseLoop(segs, n, acc)
      == ParseLoop(segs[1..], n, Cons(MakeCmd(Tokens(before) + Tokens(after)[1..], Some(Tokens(after)[0])), acc))
  {
    RedirectAnywhere(before, after);
  }

  /** A line free of both operators is one command of its words. */
  lemma PlainLine(line: string)
    requires '|' !in line && '>' !in line && Tokens(line) != []
    ensures var w := Tokens(line);
      Parse(line) == Ok(Cons(Cmd(w[0], w[1..], false, None, IsBuiltinName(w[0])), Nil))
  {
    var t := Trim(line);
    TrimChars(line);
    assert Join([t], "|") == t;
    JoinSplit([t], '|');
    TokensTrim(line);
    PlainStep([t], 1, Nil);
    assert [t][1..] == [];
  }

  /** A two-segment line `x | y`: both segments hold words. */
  lemma PipeLine(s: string, tail: string, x: string, y: string)
    requires |s| > 0 && !IsSpace(s[0]) && !IsSpace(s[|s| - 1]) && AllSpace(tail)
    requires s == x + "|" + y
    requires '|' !in x && '|' !in y && '>' !in x && '>' !in y
    requires Tokens(x) != [] && Tokens(y) != []
    ensures Parse(s + tail)
      == Ok(Cons(MakeCmd(Tokens(y), None), Cons(MakeCmd(Tokens(x), None), Nil)))
  {
    var segs := [x, y];
    assert Join(segs, "|") == s by { assert segs[1..] == [y]; }
    LineSegments(s, tail, segs);
    PlainStep(segs, 2, Nil);
    assert segs[1..] == [y];
    PlainStep([y], 2, Cons(MakeCmd(Tokens(x), None), Nil));
    assert [y][1..] == [];
  }

  /** A two-segment line `x | y` with a blank segment. */
  lemma PipeLineBlank(s: string, tail: string, x: string, y: string)
    requires |s| > 0 && !IsSpace(s[0]) && !IsSpace(s[|s| - 1]) && AllSpace(tail)
    requires s == x + "|" + y
    requires '|' !in x && '|' !in y && '>' !in x && '>' !in y
    requires Tokens(x) == [] || Tokens(y) == []
    ensures Parse(s + tail) == Err(UnexpectedPipe)
  {
    var segs := [x, y];
    assert Join(segs, "|") == s by { assert segs[1..] == [y]; }
    LineSegments(s, tail, segs);
    if Tokens(x) == [] {
      BlankStep(segs, 2, Nil);
    } else {
      PlainStep(segs, 2, Nil);
      assert segs[1..] == [y];
      BlankStep([y], 2, Cons(MakeCmd(Tokens(x), None), Nil));
    }
  }

  /** The one-segment line `before > after`, with words on both sides:
      the words before the `>`, then the target, then more words. */
  lemma RedirectLine(s: string, before: string, after: string,
                     bw: seq<string>, t: string, aw: seq<string>)
    requires |s| > 0 && !IsSpace(s[0]) && !IsSpace(s[|s| - 1]) && '|' !in s
    requires s == before + ">" + after && '>' !in before && '>' !in after
    requires Tokens(before) == bw && Tokens(after) == [t] + aw && bw + aw != []
    ensures var w := bw + aw;
      Parse(s + "\n") == Ok(Cons(Cmd(w[0], w[1..], true, Some(t), IsBuiltinName(w[0])), Nil))
  {
    LineSegments(s, "\n", [s]);
    assert ([t] + aw)[1..] == aw;
    RedirectStep([s], before, after, 1, Nil);
    assert [s][1..] == [];
  }

  /** The one-segment line `before > after` with nothing after the `>`. */
  lemma RedirectLineNoTarget(s: string, tail: string, before: string, after: string)
    requires |s| > 0 && !IsSpace(s[0]) && !IsSpace(s[|s| - 1]) && '|' !in s
    requires AllSpace(tail)
    requires s == before + ">" + after && '>' !in before && '>' !in after
    requires Tokens(after) == []
    ensures Parse(s + tail) == Err(UnexpectedRedirect)
  {
    LineSegments(s, tail, [s]);
    RedirectAnywhere(before, after);
  }

  /** A one-segment line whose text holds two `>`. */
  lemma TwoRedirectsLine(s: string, parts: seq<string>)
    requires |s| > 0 && !IsSpace(s[0]) && !IsSpace(s[|s| - 1]) && '|' !in s
    requires |parts| == 3 && forall p :: p in parts ==> '>' !in p
    requires Join(parts, ">") == s
    ensures Parse(s + "\n") == Err(UnexpectedRedirect)
  {
    LineSegments(s, "\n", [s]);
    JoinSplit(parts, '>');
  }

  // ---------------------------------------------------------------------
  // The examples

  /** `a b c ...`: the first word is the command, the rest its arguments. */
  lemma CommandWithArgs(ws: seq<string>)
    requires |ws| > 0 && forall w :: w in ws ==> IsArg(w)
    ensures Parse(Join(ws, " ") + "\n")
      == Ok(Cons(Cmd(ws[0], ws[1..], false, None, IsBuiltinName(ws[0])), Nil))
  {
    ArgsLine(ws);
    PlainLine(Join(ws, " ") + "\n");
  }

  /** `a | b`: two stages, the list holding the last one first. */
  lemma PipeSpaced(a: string, b: string)
    requires IsArg(a) && IsArg(b)
    ensures Parse(a + " | " + b + "\n")
      == Ok(Cons(Cmd(b, [], false, None, IsBuiltinName(b)),
                 Cons(Cmd(a, [], false, None, IsBuiltinName(a)), Nil)))
  {
    Spaced("", [a], " ");
    assert "" + Join([a], " ") + " " == a + " ";
    Spaced(" ", [b], "");
    assert " " + Join([b], " ") + "" == " " + b;
    var s := a + " | " + b;
    assert s == (a + " ") + "|" + (" " + b);
    assert s + "\n" == a + " | " + b + "\n";
    PipeLine(s, "\n", a + " ", " " + b);
  }

  /** `a|b`: the same two stages without spaces around the `|`. */
  lemma PipeTight(a: string, b: string)
    requires IsArg(a) && IsArg(b)
    ensures Parse(a + "|" + b + "\n")
      == Ok(Cons(Cmd(b, [], false, None, IsBuiltinName(b)),
                 Cons(Cmd(a, [], false, None, IsBuiltinName(a)), Nil)))
  {
    TokensOfWord(a);
    TokensOfWord(b);
    PipeLine(a + "|" + b, "\n", a, b);
  }

  /** `| a`: a blank first segment is rejected. */
  lemma PipeFirst(a: string)
    requires IsArg(a)
    ensures Parse("| " + a + "\n") == Err(UnexpectedPipe)
  {
    var s := "| " + a;
    assert s == "" + "|" + (" " + a);
    PipeLineBlank(s, "\n", "", " " + a);
  }

  /** `a | `: a blank last segment is rejected. */
  lemma PipeLast(a: string)
    requires IsArg(a)
    ensures Parse(a + " | \n") == Err(UnexpectedPipe)
  {
    var s := a + " |";
    assert s == (a + " ") + "|" + "";
    assert a + " | \n" == s + " \n";
    Spaced("", [a], " ");
    assert "" + Join([a], " ") + " " == a + " ";
    PipeLineBlank(s, " \n", a + " ", "");
  }

  /** A lone `|` is rejected. */
  lemma PipeAlone()
    ensures Parse("|\n") == Err(UnexpectedPipe)
  {
    assert "|" == "" + "|" + "";
    assert "|\n" == "|" + "\n";
    PipeLineBlank("|", "\n", "", "");
  }

  /** `a b > t`: the command `a b` with its output sent to `t`. */
  lemma RedirectAfter(a: string, b: string, t: string)
    requires IsArg(a) && IsArg(b) && IsArg(t)
    ensures Parse(a + " " + b + " > " + t + "\n")
      == Ok(Cons(Cmd(a, [b], true, Some(t), IsBuiltinName(a)), Nil))
  {
    var before, after := a + " " + b + " ", " " + t;
    TwoWords(before, "", a, b, " ");
    OneWord(after, " ", t, "");
    var s := a + " " + b + " > " + t;
    assert s == before + ">" + after;
    RedirectLine(s, before, after, [a, b], t, []);
    assert [a, b] + [] == [a, b];
  }

  /** `a b>t`: the same stage with no spaces around the `>`. */
  lemma RedirectTouching(a: string, b: string, t: string)
    requires IsArg(a) && IsArg(b) && IsArg(t)
    ensures Parse(a + " " + b + ">" + t + "\n")
      == Ok(Cons(Cmd(a, [b], true, Some(t), IsBuiltinName(a)), Nil))
  {
    var before, after := a + " " + b, t;
    TwoWords(before, "", a, b, "");
    OneWord(after, "", t, "");
    var s := a + " " + b + ">" + t;
    RedirectLine(s, before, after, [a, b], t, []);
    assert [a, b] + [] == [a, b];
  }

  /** `a > t b`: the same stage with the redirect between the words. */
  lemma RedirectBetween(a: string, b: string, t: string)
    requires IsArg(a) && IsArg(b) && IsArg(t)
    ensures Parse(a + " > " + t + " " + b + "\n")
      == Ok(Cons(Cmd(a, [b], true, Some(t), IsBuiltinName(a)), Nil))
  {
    var before, after := a + " ", " " + t + " " + b;
    BetweenText(a, b, t);
    OneWord(before, "", a, " ");
    TwoWords(after, " ", t, b, "");
    RedirectLine(a + " > " + t + " " + b, before, after, [a], t, [b]);
    assert [a] + [b] == [a, b];
  }

  /** The text of `a > t b` around its `>`. */
  lemma BetweenText(a: string, b: string, t: string)
    requires IsArg(a) && IsArg(b) && IsArg(t)
    ensures var s := a + " > " + t + " " + b;
      && s == (a + " ") + ">" + (" " + t + " " + b)
      && |s| > 0 && !IsSpace(s[0]) && !IsSpace(s[|s| - 1]) && '|' !in s
      && '>' !in a + " " && '>' !in " " + t + " " + b
  {
    var s := a + " > " + t + " " + b;
    assert s[0] == a[0] && s[|s| - 1] == b[|b| - 1];
  }

  /** `> t a b`: the same stage with the redirect before the command. */
  lemma RedirectFirst(a: string, b: string, t: string)
    requires IsArg(a) && IsArg(b) && IsArg(t)
    ensures Parse("> " + t + " " + a + " " + b + "\n")
      == Ok(Cons(Cmd(a, [b], true, Some(t), IsBuiltinName(a)), Nil))
  {
    var before, after := "", " " + t + " " + a + " " + b;
    FirstText(a, b, t);
    TokensEmpty(before);
    ThreeWords(after, " ", t, a, b, "");
    RedirectLine("> " + t + " " + a + " " + b, before, after, [], t, [a, b]);
    assert [] + [a, b] == [a, b];
  }

  /** The text of `> t a b` around its `>`. */
  lemma FirstText(a: string, b: string, t: string)
    requires IsArg(a) && IsArg(b) && IsArg(t)
    ensures var s := "> " + t + " " + a + " " + b;
      && s == "" + ">" + (" " + t + " " + a + " " + b)
      && |s| > 0 && !IsSpace(s[0]) && !IsSpace(s[|s| - 1]) && '|' !in s
      && '>' !in " " + t + " " + a + " " + b
  {
    var s := "> " + t + " " + a + " " + b;
    assert s[0] == '>' && s[|s| - 1] == b[|b| - 1];
  }

  /** `> t`: a line holding only a redirect has no command. It parses to
      the empty list, and the redirect is dropped. */
  lemma RedirectOnly(t: string)
    requires IsArg(t)
    ensures Parse("> " + t + "\n") == Ok(Nil)
  {
    OnlyTargetText(t);
    OneWord(" " + t, " ", t, "");
    TokensEmpty("");
    OnlyTargetLine("> " + t, "", " " + t);
  }

  /** The text of `> t` around its `>`. */
  lemma OnlyTargetText(t: string)
    requires IsArg(t)
    ensures var s := "> " + t;
      && s == "" + ">" + (" " + t)
      && |s| > 0 && !IsSpace(s[0]) && !IsSpace(s[|s| - 1]) && '|' !in s
      && '>' !in " " + t
  {
    var s := "> " + t;
    assert s[0] == '>' && s[|s| - 1] == t[|t| - 1];
  }

  /** The one-segment line `before > after` whose only word is the target. */
  lemma OnlyTargetLine(s: string, before: string, after: string)
    requires |s| > 0 && !IsSpace(s[0]) && !IsSpace(s[|s| - 1]) && '|' !in s
    requires s == before + ">" + after && '>' !in before && '>' !in after
    requires Tokens(after) != [] && Tokens(before) + Tokens(after)[1..] == []
    ensures Parse(s + "\n") == Ok(Nil)
  {
    LineSegments(s, "\n", [s]);
    RedirectAnywhere(before, after);
    assert SegmentWords(s) == [];
    LoopHead([s], 1, Nil);
  }

  /** Two `>` on one line are rejected. */
  lemma RedirectTwice(a: string, b: string, t: string, u: string)
    requires IsArg(a) && IsArg(b) && IsArg(t) && IsArg(u)
    ensures Parse(a + " " + b + " > " + t + " > " + u + "\n") == Err(UnexpectedRedirect)
  {
    var parts := [a + " " + b + " ", " " + t + " ", " " + u];
    TwiceText(a, b, t, u);
    TwoRedirectsLine(a + " " + b + " > " + t + " > " + u, parts);
  }

  /** The text of `a b > t > u` around its two `>`. */
  lemma TwiceText(a: string, b: string, t: string, u: string)
    requires IsArg(a) && IsArg(b) && IsArg(t) && IsArg(u)
    ensures var s := a + " " + b + " > " + t + " > " + u;
      var parts := [a + " " + b + " ", " " + t + " ", " " + u];
      && |s| > 0 && !IsSpace(s[0]) && !IsSpace(s[|s| - 1]) && '|' !in s
      && (forall p :: p in parts ==> '>' !in p)
      && Join(parts, ">") == s
  {
    var s := a + " " + b + " > " + t + " > " + u;
    var parts := [a + " " + b + " ", " " + t + " ", " " + u];
    assert s[0] == a[0] && s[|s| - 1] == u[|u| - 1];
    assert parts[1..][1..] == [" " + u];
    assert Join(parts[1..], ">") == " " + t + " " + ">" + " " + u;
  }

  /** A `>` with nothing after it is rejected. */
  lemma RedirectWithoutTarget(a: string, b: string)
    requires IsArg(a) && IsArg(b)
    ensures Parse(a + " " + b + " > \n") == Err(UnexpectedRedirect)
  {
    var before := a + " " + b + " ";
    var s := before + ">";
    assert s == before + ">" + "";
    assert s + " \n" == a + " " + b + " > \n" by {
      var x := a + " " + b;
      AppendAssoc(x + " ", ">", " \n");
      AppendAssoc(x, " ", "> \n");
      assert ">" + " \n" == "> \n";
      assert " " + "> \n" == " > \n";
    }
    RedirectLineNoTarget(s, " \n", before, "");
  }
}
