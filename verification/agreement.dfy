/** The library parser and the older parser of the binary agree on lines
    without `>`: once the redirect and builtin flags are dropped, they give
    the same list, and they reject the same lines. */
module LegacyAgreement {
  import opened Results
  import opened Text
  import Shell
  import Legacy

  function Forget(c: Shell.Cmd): Legacy.Cmd {
    Legacy.Cmd(c.command, c.args)
  }

  function ForgetList(l: Shell.List): Legacy.List {
    match l
    case Nil => Legacy.Nil
    case Cons(c, t) => Legacy.Cons(Forget(c), ForgetList(t))
  }

  function ForgetResult(r: Result<Shell.List, Shell.ParseError>): Result<Legacy.List, Legacy.ParseError> {
    match r
    case Ok(l) => Ok(ForgetList(l))
    case Err(_) => Err(Legacy.UnexpectedPipe)
  }

  lemma {:induction false} LoopsAgree(segs: seq<string>, n: nat, acc: Shell.List)
    requires forall i :: 0 <= i < |segs| ==> '>' !in segs[i]
    ensures Legacy.ParseLoop(segs, n, ForgetList(acc)) == ForgetResult(Shell.ParseLoop(segs, n, acc))
    ensures Shell.ParseLoop(segs, n, acc).Err? ==> Shell.ParseLoop(segs, n, acc).error == Shell.UnexpectedPipe
    decreases |segs|
  {
    if |segs| > 0 {
      var seg := segs[0];
      CountOfZero(seg, '>');
      assert Shell.ParseRedirect(seg) == Ok(Shell.Redirection(seg, None));
      var words := Tokens(Trim(seg));
      if |words| > 0 {
        var c := Shell.MakeCmd(words, None);
        assert Forget(c) == Legacy.Cmd(words[0], words[1..]);
        forall i | 0 <= i < |segs| - 1 ensures '>' !in segs[1..][i] {
          assert segs[1..][i] == segs[i + 1];
        }
        LoopsAgree(segs[1..], n, Shell.Cons(c, acc));
      }
    }
  }

  /** The segments of a line without `>` have no `>` either. */
  lemma SegmentsWithoutRedirect(input: string)
    requires '>' !in input
    ensures forall i :: 0 <= i < |Shell.Segments(input)| ==> '>' !in Shell.Segments(input)[i]
  {
    var segs := Shell.Segments(input);
    TrimChars(input);
    SplitChars(Trim(input), '|');
    forall i | 0 <= i < |segs| ensures '>' !in segs[i] {
      assert segs[i] in segs;
    }
  }

  /** On a line without `>`, the older parser returns exactly the library
      parser's list with the redirect and builtin flags dropped, and both
      reject the same lines, the library only with the `|` error. */
  lemma ParsersAgree(input: string)
    requires '>' !in input
    ensures Legacy.Parse(input) == ForgetResult(Shell.Parse(input))
    ensures Shell.Parse(input).Err? ==> Shell.Parse(input).error == Shell.UnexpectedPipe
  {
    var segs := Shell.Segments(input);
    SegmentsWithoutRedirect(input);
    LoopsAgree(segs, |segs|, Shell.Nil);
    assert Legacy.Parse(input) == Legacy.ParseLoop(segs, |segs|, Legacy.Nil);
    assert Shell.Parse(input) == Shell.ParseLoop(segs, |segs|, Shell.Nil);
  }
}
