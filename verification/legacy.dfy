/** The older parser of the shell binary (src/main.rs): the same
    split-on-`|`, tokenize-on-whitespace algorithm without redirects or
    builtin flags. */
module Legacy {
  import opened Results
  import opened Text

  datatype Cmd = Cmd(command: string, args: seq<string>)

  datatype List = Cons(head: Cmd, tail: List) | Nil

  /** "Syntax error near unexpected '|'", the only error. */
  datatype ParseError = UnexpectedPipe

  /** The stages in execution order; the head of the list is the last. */
  function Stages(l: List): (st: seq<Cmd>)
    ensures l.Nil? <==> st == []
  {
    match l
    case Nil => []
    case Cons(c, t) => Stages(t) + [c]
  }

  /** The `for` loop of `parse`. */
  function ParseLoop(segs: seq<string>, cmdNum: nat, list: List): Result<List, ParseError>
    decreases |segs|
  {
    if |segs| == 0 then Ok(list)
    else
      var words := Tokens(Trim(segs[0]));
      if |words| == 0 then
        if cmdNum > 1 then Err(UnexpectedPipe) else Ok(list)
      else
        ParseLoop(segs[1..], cmdNum, Cons(Cmd(words[0], words[1..]), list))
  }

  /** `parse`. */
  function Parse(input: string): Result<List, ParseError> {
    var segs := Split(Trim(input), '|');
    ParseLoop(segs, |segs|, Nil)
  }

  /** Every segment has at least one token. */
  predicate NoBlank(segs: seq<string>) {
    forall i :: 0 <= i < |segs| ==> Tokens(segs[i]) != []
  }

  /** The stage a segment with tokens stands for: its first token is the
      command and the others, in order, the arguments. */
  function StageOf(seg: string): Cmd
    requires Tokens(seg) != []
  {
    Cmd(Tokens(seg)[0], Tokens(seg)[1..])
  }

  lemma NoBlankTail(segs: seq<string>)
    requires |segs| > 0
    ensures NoBlank(segs) <==> Tokens(segs[0]) != [] && NoBlank(segs[1..])
  {
    if Tokens(segs[0]) != [] && NoBlank(segs[1..]) {
      forall i | 0 <= i < |segs| ensures Tokens(segs[i]) != [] {
        if i > 0 { assert segs[i] == segs[1..][i - 1]; }
      }
    }
    if NoBlank(segs) {
      forall i | 0 <= i < |segs| - 1 ensures Tokens(segs[1..][i]) != [] {
        assert segs[1..][i] == segs[i + 1];
      }
    }
  }

  lemma {:induction false} ParseLoopOk(segs: seq<string>, n: nat, acc: List)
    requires |Stages(acc)| + |segs| == n
    ensures ParseLoop(segs, n, acc).Ok? <==> n == 1 || NoBlank(segs)
    decreases |segs|
  {
    if |segs| > 0 {
      NoBlankTail(segs);
      TokensTrim(segs[0]);
      var words := Tokens(Trim(segs[0]));
      if |words| > 0 {
        var acc' := Cons(Cmd(words[0], words[1..]), acc);
        assert |Stages(acc')| == |Stages(acc)| + 1;
        ParseLoopOk(segs[1..], n, acc');
      }
    }
  }

  /** The stages of segments that all have tokens, in order. */
  function SegmentStages(segs: seq<string>): (st: seq<Cmd>)
    requires NoBlank(segs)
    ensures |st| == |segs|
    ensures forall i :: 0 <= i < |segs| ==> st[i] == StageOf(segs[i])
  {
    if |segs| == 0 then []
    else
      NoBlankTail(segs);
      [StageOf(segs[0])] + SegmentStages(segs[1..])
  }

  lemma SegmentStagesCons(segs: seq<string>)
    requires |segs| > 0 && NoBlank(segs)
    ensures NoBlank(segs[1..])
    ensures SegmentStages(segs) == [StageOf(segs[0])] + SegmentStages(segs[1..])
  {
    NoBlankTail(segs);
  }

  lemma {:induction false} ParseLoopStages(segs: seq<string>, n: nat, acc: List)
    requires |Stages(acc)| + |segs| == n
    requires ParseLoop(segs, n, acc).Ok?
    ensures var l := ParseLoop(segs, n, acc).value;
      || (n == 1 && |segs| == 1 && Tokens(segs[0]) == [] && l == acc)
      || (NoBlank(segs) && Stages(l) == Stages(acc) + SegmentStages(segs))
    decreases |segs|
  {
    if |segs| == 0 {
      assert Stages(acc) + [] == Stages(acc);
    } else {
      TokensTrim(segs[0]);
      var words := Tokens(Trim(segs[0]));
      if |words| > 0 {
        var c := Cmd(words[0], words[1..]);
        var acc' := Cons(c, acc);
        assert ParseLoop(segs, n, acc) == ParseLoop(segs[1..], n, acc');
        assert Stages(acc') == Stages(acc) + [c];
        ParseLoopStages(segs[1..], n, acc');
        NoBlankTail(segs);
        assert StageOf(segs[0]) == c;
        SegmentStagesCons(segs);
        AppendAssoc(Stages(acc), [c], SegmentStages(segs[1..]));
      }
    }
  }

  /** `parse`, read segment by segment: a line of several segments is
      rejected exactly when one of them has no token; an accepted line has
      one stage per segment, in left-to-right order, each made of its
      segment's tokens, unless it is a single blank segment, which yields
      the empty list. */
  lemma ParseSpec(input: string)
    ensures var segs := Split(Trim(input), '|'); var r := Parse(input);
      && (r.Ok? <==> |segs| == 1 || NoBlank(segs))
      && (r.Ok? ==>
            || (|segs| == 1 && Tokens(segs[0]) == [] && r.value == Nil)
            || (&& |Stages(r.value)| == |segs|
                && forall i :: 0 <= i < |segs| ==> Stages(r.value)[i] == StageOf(segs[i])))
  {
    var segs := Split(Trim(input), '|');
    ParseLoopOk(segs, |segs|, Nil);
    if Parse(input).Ok? {
      ParseLoopStages(segs, |segs|, Nil);
      if NoBlank(segs) {
        assert [] + SegmentStages(segs) == SegmentStages(segs);
      }
    }
  }

  /** An empty or all-whitespace line parses to the empty list. */
  lemma BlankLineParsesToNil(input: string)
    requires AllSpace(input)
    ensures Parse(input) == Ok(Nil)
  {
    TrimEmpty(input);
    assert Split([], '|') == [[]];
  }

  /** With two or more segments, a segment without tokens is rejected. */
  lemma EmptySegmentRejected(input: string, i: nat)
    requires |Split(Trim(input), '|')| >= 2
    requires i < |Split(Trim(input), '|')| && Tokens(Split(Trim(input), '|')[i]) == []
    ensures Parse(input).Err?
  {
    ParseSpec(input);
  }
}
