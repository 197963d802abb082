/** The command-line parser of the shell library (src/lib.rs): one input line
    becomes a cons-list of `Cmd` records, one per `|`-separated stage, each
    with at most one `>` redirect resolved. The list is built by prepending,
    so its head is the LAST stage of the line. */
module Shell {
  import opened Results
  import opened Text

  /** A parsed stage. The runtime slots of the Rust record (child handle,
      pid, read descriptor) belong to the executor and are not modelled. */
  datatype Cmd = Cmd(
    command: string,
    args: seq<string>,
    redirect: bool,
    redirectPath: Option<string>,
    builtin: bool)

  datatype List = Cons(head: Cmd, tail: List) | Nil

  /** The two syntax errors: "near unexpected '|'" and "near unexpected '>'". */
  datatype ParseError = UnexpectedPipe | UnexpectedRedirect

  /** The result of resolving a segment's redirect: the text left for the
      command and its arguments, and the redirect target if there was one. */
  datatype Redirection = Redirection(cmdStr: string, path: Option<string>)

  /** The names the parser flags as builtins. */
  predicate IsBuiltinName(name: string) {
    name == "exit" || name == "pwd" || name == "cd"
  }

  /** A command-line word as a stage can hold it: a whitespace token that
      contains neither of the two operators. */
  predicate IsArg(w: string) {
    IsWord(w) && '|' !in w && '>' !in w
  }

  /** The invariants every parsed `Cmd` keeps. */
  predicate WellFormed(c: Cmd) {
    && (c.builtin <==> IsBuiltinName(c.command))
    && (c.redirect <==> c.redirectPath.Some?)
    && IsArg(c.command)
    && (forall a :: a in c.args ==> IsArg(a))
    && (c.redirectPath.Some? ==> IsArg(c.redirectPath.value))
  }

  /** The stages of a list in execution (left-to-right) order: the head of
      the list is the last stage. */
  function Stages(l: List): (st: seq<Cmd>)
    ensures l.Cons? ==> |st| > 0 && st[|st| - 1] == l.head
    ensures l.Nil? <==> st == []
  {
    match l
    case Nil => []
    case Cons(c, t) => Stages(t) + [c]
  }

  /** `List::get_cmd_num`: walks the list counting its cells. */
  method GetCmdNum(l: List) returns (num: nat)
    ensures num == |Stages(l)|
  {
    var now := l;
    num := 0;
    while now.Cons?
      invariant num + |Stages(now)| == |Stages(l)|
      decreases now
    {
      num := num + 1;
      now := now.tail;
    }
  }

  /** A stage as the loop body of `parse` fills in a fresh `Cmd::new()`. */
  function MakeCmd(words: seq<string>, path: Option<string>): Cmd
    requires |words| > 0
  {
    Cmd(words[0], words[1..], path.Some?, path, IsBuiltinName(words[0]))
  }

  /** `parse_redirect`: splits the segment on `>`. With one `>`, the first
      token after it is the target and the remaining tokens after it are
      glued back, after a space, onto the text before it. */
  function ParseRedirect(l: string): (r: Result<Redirection, ParseError>)
    ensures CountOf(l, '>') == 0 ==> r == Ok(Redirection(l, None))
    ensures CountOf(l, '>') >= 2 ==> r == Err(UnexpectedRedirect)
    ensures r.Ok? ==> (r.value.path.Some? <==> CountOf(l, '>') == 1)
    ensures r.Err? ==> r.error == UnexpectedRedirect
  {
    var parts := Split(l, '>');
    if |parts| == 2 then
      var target := Tokens(Trim(parts[1]));
      if |target| == 0 then Err(UnexpectedRedirect)
      else Ok(Redirection(parts[0] + " " + Join(target[1..], " "), Some(target[0])))
    else if |parts| > 2 then Err(UnexpectedRedirect)
    else Ok(Redirection(l, None))
  }

  /** The command words left once the redirect is resolved. */
  function Words(rd: Redirection): seq<string> {
    Tokens(Trim(rd.cmdStr))
  }

  /** The `for` loop of `parse` over the remaining segments, with `list`
      the stages built so far and `cmdNum` the number of segments. */
  function ParseLoop(segs: seq<string>, cmdNum: nat, list: List): Result<List, ParseError>
    decreases |segs|
  {
    if |segs| == 0 then Ok(list)
    else
      match ParseRedirect(segs[0])
      case Err(e) => Err(e)
      case Ok(rd) =>
        var words := Words(rd);
        if |words| == 0 then
          if cmdNum > 1 then Err(UnexpectedPipe) else Ok(list)
        else
          ParseLoop(segs[1..], cmdNum, Cons(MakeCmd(words, rd.path), list))
  }

  /** The `|`-separated segments of a trimmed line. */
  function Segments(input: string): (segs: seq<string>)
    ensures |segs| == CountOf(Trim(input), '|') + 1
  {
    Split(Trim(input), '|')
  }

  /** `parse`. */
  function Parse(input: string): Result<List, ParseError> {
    var segs := Segments(input);
    ParseLoop(segs, |segs|, Nil)
  }

  // ---------------------------------------------------------------------
  // The per-segment reading the loop is checked against

  /** Why a segment stops the parse, if it does, in a line of `n` segments:
      its redirect is malformed, or it has no command while the line has
      more than one segment. */
  function SegmentFault(seg: string, n: nat): Option<ParseError> {
    match ParseRedirect(seg)
    case Err(e) => Some(e)
    case Ok(rd) => if Words(rd) == [] && n > 1 then Some(UnexpectedPipe) else None
  }

  /** The command words a segment contributes (none if it is malformed). */
  function SegmentWords(seg: string): seq<string> {
    match ParseRedirect(seg)
    case Err(_) => []
    case Ok(rd) => Words(rd)
  }

  /** The stage a well-formed, non-blank segment becomes. */
  function StageOf(seg: string): Cmd
    requires SegmentWords(seg) != []
  {
    var rd := ParseRedirect(seg).value;
    MakeCmd(Words(rd), rd.path)
  }

  /** No segment stops the parse. */
  predicate NoFault(segs: seq<string>, n: nat) {
    forall i {:trigger SegmentFault(segs[i], n)} :: 0 <= i < |segs| ==> SegmentFault(segs[i], n) == None
  }

  /** Every segment has a command. */
  predicate NoBlank(segs: seq<string>) {
    forall i {:trigger SegmentWords(segs[i])} :: 0 <= i < |segs| ==> SegmentWords(segs[i]) != []
  }

  /** The rest of a line without blank segments has none either. */
  lemma NoBlankTail(segs: seq<string>)
    requires |segs| > 0 && NoBlank(segs)
    ensures SegmentWords(segs[0]) != [] && NoBlank(segs[1..])
  {
    forall i | 0 <= i < |segs| - 1 ensures SegmentWords(segs[1..][i]) != [] {
      assert segs[1..][i] == segs[i + 1];
    }
  }

  /** The stages of non-blank segments, one per segment, in order. */
  function SegmentStages(segs: seq<string>): (st: seq<Cmd>)
    requires NoBlank(segs)
    ensures |st| == |segs|
    ensures forall i :: 0 <= i < |segs| ==> st[i] == StageOf(segs[i])
  {
    if |segs| == 0 then []
    else
      NoBlankTail(segs);
      var rest := SegmentStages(segs[1..]);
      [StageOf(segs[0])] + rest
  }

  lemma SegmentStagesCons(segs: seq<string>)
    requires |segs| > 0 && NoBlank(segs)
    ensures NoBlank(segs[1..])
    ensures SegmentStages(segs) == [StageOf(segs[0])] + SegmentStages(segs[1..])
  {
  }

  lemma NoFaultCons(segs: seq<string>, n: nat)
    requires |segs| > 0
    ensures NoFault(segs, n) <==> SegmentFault(segs[0], n) == None && NoFault(segs[1..], n)
  {
    if SegmentFault(segs[0], n) == None && NoFault(segs[1..], n) {
      forall i | 0 <= i < |segs| ensures SegmentFault(segs[i], n) == None {
        if i > 0 { assert segs[i] == segs[1..][i - 1]; }
      }
    }
    if NoFault(segs, n) {
      forall i | 0 <= i < |segs| - 1 ensures SegmentFault(segs[1..][i], n) == None {
        assert segs[1..][i] == segs[i + 1];
      }
    }
  }

  /** The loop succeeds exactly when no segment is faulty. */
  lemma {:induction false} ParseLoopOk(segs: seq<string>, n: nat, acc: List)
    requires |Stages(acc)| + |segs| == n
    ensures ParseLoop(segs, n, acc).Ok? <==> NoFault(segs, n)
    decreases |segs|
  {
    if |segs| > 0 {
      NoFaultCons(segs, n);
      match ParseRedirect(segs[0])
      case Err(e) =>
      case Ok(rd) =>
        if |Words(rd)| == 0 {
          if n <= 1 {
            assert |segs[1..]| == 0;
          }
        } else {
          var acc' := Cons(MakeCmd(Words(rd), rd.path), acc);
          assert |Stages(acc')| == |Stages(acc)| + 1;
          ParseLoopOk(segs[1..], n, acc');
        }
    }
  }

  /** One turn of the loop, read through the per-segment functions. */
  lemma LoopHead(segs: seq<string>, n: nat, acc: List)
    requires |segs| > 0
    ensures var f := SegmentFault(segs[0], n);
      && (f.Some? ==> ParseLoop(segs, n, acc) == Err(f.value))
      && (f == None && SegmentWords(segs[0]) == [] ==> n <= 1 && ParseLoop(segs, n, acc) == Ok(acc))
      && (f == None && SegmentWords(segs[0]) != [] ==>
            ParseLoop(segs, n, acc) == ParseLoop(segs[1..], n, Cons(StageOf(segs[0]), acc)))
  {
  }

  /** A non-blank head and a non-blank rest make a non-blank line. */
  lemma NoBlankCons(segs: seq<string>)
    requires |segs| > 0 && SegmentWords(segs[0]) != [] && NoBlank(segs[1..])
    ensures NoBlank(segs)
  {
    forall i | 0 <= i < |segs| ensures SegmentWords(segs[i]) != [] {
      if i > 0 { assert segs[i] == segs[1..][i - 1]; }
    }
  }

  /** A fault-free head extends a fault-free prefix of the rest. */
  lemma NoFaultShift(segs: seq<string>, n: nat, i: nat)
    requires i < |segs| - 1 && SegmentFault(segs[0], n) == None
    requires NoFault(segs[1..][..i], n)
    ensures NoFault(segs[..i + 1], n)
  {
    var prefix := segs[..i + 1];
    forall j | 0 <= j < |prefix| ensures SegmentFault(prefix[j], n) == None {
      if j > 0 {
        assert prefix[j] == segs[1..][..i][j - 1];
      }
    }
  }

  /** A failing loop reports the fault of its first faulty segment. */
  lemma {:induction false} ParseLoopFirstFault(segs: seq<string>, n: nat, acc: List)
    requires ParseLoop(segs, n, acc).Err?
    ensures exists i :: 0 <= i < |segs| && SegmentFault(segs[i], n) == Some(ParseLoop(segs, n, acc).error)
                        && NoFault(segs[..i], n)
    decreases |segs|
  {
    var e := ParseLoop(segs, n, acc).error;
    LoopHead(segs, n, acc);
    if SegmentFault(segs[0], n).Some? {
      assert NoFault(segs[..0], n);
    } else {
      var acc' := Cons(StageOf(segs[0]), acc);
      ParseLoopFirstFault(segs[1..], n, acc');
      var i :| 0 <= i < |segs[1..]| && SegmentFault(segs[1..][i], n) == Some(e) && NoFault(segs[1..][..i], n);
      assert segs[1..][i] == segs[i + 1];
      NoFaultShift(segs, n, i);
    }
  }

  /** Stages pushed onto a list come out after the ones already there. */
  lemma StagesPush(acc: List, c: Cmd, rest: seq<Cmd>)
    ensures Stages(Cons(c, acc)) + rest == Stages(acc) + ([c] + rest)
  {
    AppendAssoc(Stages(acc), [c], rest);
  }

  /** A successful loop appends one stage per segment, in segment order,
      unless the line is a single blank segment, which adds nothing. */
  lemma {:induction false} ParseLoopStages(segs: seq<string>, n: nat, acc: List)
    requires |Stages(acc)| + |segs| == n
    requires ParseLoop(segs, n, acc).Ok?
    ensures var l := ParseLoop(segs, n, acc).value;
      || (n == 1 && |segs| == 1 && SegmentWords(segs[0]) == [] && l == acc)
      || (NoBlank(segs) && Stages(l) == Stages(acc) + SegmentStages(segs))
    decreases |segs|
  {
    if |segs| == 0 {
      assert Stages(acc) + [] == Stages(acc);
    } else {
      LoopHead(segs, n, acc);
      if SegmentWords(segs[0]) != [] {
        var c := StageOf(segs[0]);
        ParseLoopStages(segs[1..], n, Cons(c, acc));
        NoBlankCons(segs);
        SegmentStagesCons(segs);
        StagesPush(acc, c, SegmentStages(segs[1..]));
      }
    }
  }

  // ---------------------------------------------------------------------
  // parse_redirect

  /** A segment with exactly one `>` is the text before it, the `>`, and
      the text after it. */
  lemma OneRedirectSplits(seg: string) returns (before: string, after: string)
    requires CountOf(seg, '>') == 1
    ensures seg == before + ">" + after
    ensures '>' !in before && '>' !in after
  {
    var parts := Split(seg, '>');
    SplitJoin(seg, '>');
    assert parts[0] in parts && parts[1] in parts;
    before, after := parts[0], parts[1];
    assert Join(parts, ">") == before + ">" + Join(parts[1..], ">");
    assert parts[1..] == [after];
  }

  /** Wherever the `>` stands, the first token after it is the target and
      the command words are the tokens before it followed by the tokens
      after the target; with nothing after the `>` the segment is
      rejected. */
  lemma RedirectAnywhere(before: string, after: string)
    requires '>' !in before && '>' !in after
    ensures var r := ParseRedirect(before + ">" + after);
      && (r.Err? <==> Tokens(after) == [])
      && (r.Ok? ==> && r.value.path == Some(Tokens(after)[0])
                    && Words(r.value) == Tokens(before) + Tokens(after)[1..])
  {
    var seg := before + ">" + after;
    assert Join([before, after], ">") == seg by {
      assert [before, after][1..] == [after];
    }
    assert forall p :: p in [before, after] ==> '>' !in p;
    JoinSplit([before, after], '>');
    TokensTrim(after);
    var target := Tokens(after);
    if |target| > 0 {
      var rest := target[1..];
      assert forall w :: w in rest ==> w in target;
      var cmdStr := before + " " + Join(rest, " ");
      TokensTrim(cmdStr);
      TokensSplitAt(before, ' ', Join(rest, " "));
      assert cmdStr == before + [' '] + Join(rest, " ");
      TokensOfJoin(rest);
    }
  }

  /** A segment without `>` is its own command text. */
  lemma StageOfPlain(seg: string)
    requires '>' !in seg
    ensures SegmentWords(seg) == Tokens(seg)
    ensures Tokens(seg) != [] ==>
      var w := Tokens(seg);
      StageOf(seg) == Cmd(w[0], w[1..], false, None, IsBuiltinName(w[0]))
  {
    CountOfZero(seg, '>');
    TokensTrim(seg);
  }

  /** A segment with one `>` yields the same stage wherever the `>` and its
      target stand among the words. */
  lemma StageOfRedirect(before: string, after: string)
    requires '>' !in before && '>' !in after
    requires Tokens(after) != []
    ensures var w := Tokens(before) + Tokens(after)[1..];
      && SegmentWords(before + ">" + after) == w
      && (w != [] ==>
            StageOf(before + ">" + after)
              == Cmd(w[0], w[1..], true, Some(Tokens(after)[0]), IsBuiltinName(w[0])))
  {
    RedirectAnywhere(before, after);
  }

  /** The redirect checks come before the blank-segment check: a segment
      with two or more `>`, or whose single `>` has no target, stops the
      parse with the redirect error whatever else it holds. */
  lemma RedirectFault(seg: string, n: nat)
    ensures CountOf(seg, '>') >= 2 ==> SegmentFault(seg, n) == Some(UnexpectedRedirect)
    ensures CountOf(seg, '>') == 1 ==>
      forall before, after :: seg == before + ">" + after && '>' !in before && '>' !in after ==>
        (SegmentFault(seg, n) == Some(UnexpectedRedirect) <==> Tokens(after) == [])
  {
    if CountOf(seg, '>') == 1 {
      forall before, after | seg == before + ">" + after && '>' !in before && '>' !in after
        ensures SegmentFault(seg, n) == Some(UnexpectedRedirect) <==> Tokens(after) == []
      {
        RedirectAnywhere(before, after);
      }
    }
  }

  /** Tokens of text free of both operators are command-line words. */
  lemma TokensAreArgs(s: string)
    requires '|' !in s && '>' !in s
    ensures forall t :: t in Tokens(s) ==> IsArg(t)
  {
  }

  lemma MakeCmdWellFormed(words: seq<string>, path: Option<string>)
    requires |words| > 0
    requires forall w :: w in words ==> IsArg(w)
    requires path.Some? ==> IsArg(path.value)
    ensures WellFormed(MakeCmd(words, path))
  {
    assert words[0] in words;
    assert forall a :: a in words[1..] ==> a in words;
  }

  /** Every stage a segment free of `|` produces is well formed. */
  lemma StageOfWellFormed(seg: string)
    requires '|' !in seg
    requires SegmentWords(seg) != []
    ensures WellFormed(StageOf(seg))
  {
    var rd := ParseRedirect(seg).value;
    if CountOf(seg, '>') == 0 {
      CountOfZero(seg, '>');
      TokensTrim(seg);
      TokensAreArgs(seg);
      MakeCmdWellFormed(Tokens(seg), None);
    } else {
      var before, after := OneRedirectSplits(seg);
      assert '|' !in before && '|' !in after;
      RedirectAnywhere(before, after);
      TokensAreArgs(before);
      TokensAreArgs(after);
      var t := Tokens(after);
      assert t[0] in t;
      assert forall a :: a in t[1..] ==> a in t;
      MakeCmdWellFormed(Tokens(before) + t[1..], Some(t[0]));
    }
  }

  // ---------------------------------------------------------------------
  // parse

  /** `parse`, read segment by segment. The line is rejected exactly when
      some segment is faulty, with the fault of the first faulty one; an
      accepted line yields one stage per segment in left-to-right order,
      except that a single blank segment yields the empty list. */
  lemma ParseSpec(input: string)
    ensures var segs := Segments(input); var r := Parse(input);
      && (r.Ok? <==> NoFault(segs, |segs|))
      && (r.Err? ==> exists i :: 0 <= i < |segs| && SegmentFault(segs[i], |segs|) == Some(r.error)
                                 && NoFault(segs[..i], |segs|))
      && (r.Ok? ==>
            || (|segs| == 1 && SegmentWords(segs[0]) == [] && r.value == Nil)
            || (NoBlank(segs) && Stages(r.value) == SegmentStages(segs)))
  {
    var segs := Segments(input);
    ParseLoopOk(segs, |segs|, Nil);
    if Parse(input).Err? {
      ParseLoopFirstFault(segs, |segs|, Nil);
    } else {
      ParseLoopStages(segs, |segs|, Nil);
      if NoBlank(segs) {
        assert [] + SegmentStages(segs) == SegmentStages(segs);
      }
    }
  }

  /** An empty or all-whitespace line parses to the empty list. */
  lemma BlankLineParsesToNil(input: string)
    requires AllSpace(input)
    ensures Parse(input) == Ok(Nil)
  {
    TrimEmpty(input);
    assert Segments(input) == [[]];
    assert CountOf([], '>') == 0;
    assert Words(Redirection([], None)) == [];
  }

  /** In a line of two or more segments, a segment with no tokens makes
      the parse fail. */
  lemma EmptySegmentRejected(input: string, i: nat)
    requires |Segments(input)| >= 2
    requires i < |Segments(input)| && Tokens(Segments(input)[i]) == []
    ensures Parse(input).Err?
  {
    var segs := Segments(input);
    var seg := segs[i];
    TokensEmpty(seg);
    forall k | 0 <= k < |seg| ensures seg[k] != '>' {
      assert IsSpace(seg[k]);
    }
    StageOfPlain(seg);
    CountOfZero(seg, '>');
    assert SegmentFault(seg, |segs|) == Some(UnexpectedPipe);
    ParseSpec(input);
  }

  /** A segment whose redirect is malformed makes the parse fail. */
  lemma BadRedirectRejected(input: string, i: nat)
    requires i < |Segments(input)|
    requires ParseRedirect(Segments(input)[i]).Err?
    ensures Parse(input).Err?
  {
    var segs := Segments(input);
    assert SegmentFault(segs[i], |segs|).Some?;
    ParseSpec(input);
  }

  /** An accepted non-empty list has one stage per `|`-separated segment;
      its stages in execution order are the segments' stages, so the head
      of the list is the last segment's stage. */
  lemma ParseOrder(input: string)
    requires Parse(input).Ok? && Parse(input).value.Cons?
    ensures var segs := Segments(input); var l := Parse(input).value;
      && |Stages(l)| == |segs| == CountOf(Trim(input), '|') + 1
      && NoBlank(segs)
      && (forall i :: 0 <= i < |segs| ==> Stages(l)[i] == StageOf(segs[i]))
      && l.head == StageOf(segs[|segs| - 1])
  {
    ParseSpec(input);
  }

  /** Every stage of an accepted line keeps the `Cmd` invariants: the
      builtin flag marks exactly exit/pwd/cd, the redirect flag marks
      exactly a present target, and no word is empty or holds whitespace,
      `|` or `>`. */
  lemma ParsedStagesWellFormed(input: string)
    requires Parse(input).Ok?
    ensures forall c :: c in Stages(Parse(input).value) ==> WellFormed(c)
  {
    var segs := Segments(input);
    var l := Parse(input).value;
    ParseSpec(input);
    if l.Cons? {
      assert NoBlank(segs) && Stages(l) == SegmentStages(segs);
      forall i | 0 <= i < |segs| ensures WellFormed(Stages(l)[i]) {
        assert segs[i] in segs;
        StageOfWellFormed(segs[i]);
      }
    }
  }
}
