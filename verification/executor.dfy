/** The decisions `invoke_cmd` makes for each stage of a parsed list
    (src/lib.rs): where its standard input comes from, where its standard
    output goes, and whether it runs inside the shell, in a forked copy of
    the shell, or as a spawned program. No process is started here; the
    operating system's answers are parameters. */
module Executor {
  import opened Results
  import opened Shell
  import opened Builtins

  datatype StdinCfg =
    | InheritStdin   // Stdio::inherit()
    | NullStdin      // Stdio::null(), or a descriptor no stage writes to
    | PipeFromPrev   // the read end of the previous stage's output pipe

  datatype StdoutCfg =
    | ToFile(path: string)  // the redirect target, created or truncated
    | InheritStdout         // Stdio::inherit()
    | PipeToNext            // a pipe read by the next stage

  datatype Dispatch =
    | InShell   // the builtin runs in the shell process itself
    | Forked    // the builtin runs in a forked copy of the shell
    | Spawned   // an external program is spawned

  datatype StagePlan = StagePlan(cmd: Cmd, stdin: StdinCfg, stdout: StdoutCfg, dispatch: Dispatch)

  /** Every redirected stage has a target, as the `unwrap`s of the
      executor require. */
  predicate TargetsPresent(l: List) {
    forall c :: c in Stages(l) ==> (c.redirect ==> c.redirectPath.Some?)
  }

  /** `get_stdin`: what a stage reads, given the previous stage if any. */
  function StdinFor(prev: Option<Cmd>): StdinCfg {
    match prev
    case None => InheritStdin
    case Some(p) => if p.redirect then NullStdin else PipeFromPrev
  }

  /** `get_stdout`: where a stage writes. */
  function StdoutFor(cmd: Cmd, isLast: bool): StdoutCfg
    requires cmd.redirect ==> cmd.redirectPath.Some?
  {
    if cmd.redirect then ToFile(cmd.redirectPath.value)
    else if isLast then InheritStdout
    else PipeToNext
  }

  /** The branch `invoke_cmd` takes for a stage. */
  function DispatchFor(cmd: Cmd, singleCommand: bool): Dispatch {
    if !cmd.builtin then Spawned
    else if singleCommand then InShell
    else Forked
  }

  /** `invoke_cmd(list, from_outside)`: it first recurses into the tail,
      so the earlier stages are planned first, and hands the tail's head
      on as the previous stage. */
  function InvokePlan(l: List, fromOutside: bool): (plans: seq<StagePlan>)
    requires TargetsPresent(l)
    ensures |plans| == |Stages(l)|
    ensures forall i :: 0 <= i < |plans| ==> plans[i].cmd == Stages(l)[i]
  {
    match l
    case Nil => []
    case Cons(c, t) =>
      assert Stages(l) == Stages(t) + [c];
      assert TargetsPresent(t);
      var isLast := fromOutside;
      var singleCommand := isLast && |Stages(l)| == 1;
      var prev := if t.Cons? then Some(t.head) else None;
      InvokePlan(t, false) + [StagePlan(c, StdinFor(prev), StdoutFor(c, isLast), DispatchFor(c, singleCommand))]
  }

  /** The wiring rules, by position `i` among the stages `st` of a list
      whose last stage is the last of the line exactly when `last`. */
  predicate Wired(p: StagePlan, st: seq<Cmd>, i: nat, last: bool)
    requires i < |st|
    requires st[i].redirect ==> st[i].redirectPath.Some?
  {
    && p.cmd == st[i]
    && p.stdin == (if i == 0 then InheritStdin
                   else if st[i - 1].redirect then NullStdin
                   else PipeFromPrev)
    && p.stdout == (if st[i].redirect then ToFile(st[i].redirectPath.value)
                    else if last && i == |st| - 1 then InheritStdout
                    else PipeToNext)
    && p.dispatch == (if !st[i].builtin then Spawned
                      else if last && |st| == 1 then InShell
                      else Forked)
  }

  lemma {:induction false} InvokePlanWired(l: List, last: bool)
    requires TargetsPresent(l)
    ensures |InvokePlan(l, last)| == |Stages(l)|
    ensures forall i :: 0 <= i < |Stages(l)| ==> Wired(InvokePlan(l, last)[i], Stages(l), i, last)
  {
    match l
    case Nil =>
    case Cons(c, t) =>
      var st := Stages(l);
      var sp := Stages(t);
      assert st == sp + [c];
      assert TargetsPresent(t);
      InvokePlanWired(t, false);
      var plans := InvokePlan(l, last);
      var inner := InvokePlan(t, false);
      forall i | 0 <= i < |st| ensures Wired(plans[i], st, i, last) {
        if i < |sp| {
          assert plans[i] == inner[i];
          assert Wired(inner[i], sp, i, false);
          assert st[i] == sp[i];
          if i > 0 { assert st[i - 1] == sp[i - 1]; }
        } else {
          assert i == |sp|;
          if t.Cons? {
            assert t.head == sp[|sp| - 1];
          }
        }
      }
  }

  /** The stage plans of a line, in execution order: stage `i` reads the
      caller's input if it is first, nothing if the stage before it was
      redirected, and that stage's pipe otherwise; it writes to its target
      if redirected, to the caller's output if it is last, and to a pipe
      otherwise; a builtin runs inside the shell only when it is the sole
      stage and in a forked copy otherwise. */
  lemma PlanWiring(l: List)
    requires TargetsPresent(l)
    ensures var plans := InvokePlan(l, true);
      && |plans| == |Stages(l)|
      && forall i :: 0 <= i < |plans| ==> Wired(plans[i], Stages(l), i, true)
  {
    InvokePlanWired(l, true);
  }

  /** A builtin runs inside the shell exactly when it is the whole line:
      in `exit | true` neither stage runs in the shell. */
  lemma InShellOnlyWhenAlone(l: List)
    requires TargetsPresent(l)
    ensures forall i :: 0 <= i < |Stages(l)| ==>
      (InvokePlan(l, true)[i].dispatch == InShell <==> |Stages(l)| == 1 && Stages(l)[i].builtin)
  {
    PlanWiring(l);
  }

  // ---------------------------------------------------------------------
  // Running the planned stages

  /** How a forked copy of the shell that ran a builtin ends: it exits
      with a status, or it returns an error out of `invoke_cmd` and goes on
      running the caller's code as a second copy of the shell. */
  datatype ChildFate = ChildExits(status: int) | ChildReturnsErr

  /** Whether the builtin run in a forked child hits an error: the
      redirect target cannot be created, or `pwd`/`cd` report an error. */
  predicate ChildFails(cmd: Cmd, os: Os)
    requires cmd.redirect ==> cmd.redirectPath.Some?
  {
    || (cmd.redirect && cmd.redirectPath.value !in os.creatable)
    || (cmd.command == "pwd" && PwdIsErr(ExecPwd(cmd.args, cmd.redirect, cmd.redirectPath, os)))
    || (cmd.command == "cd" && CdIsErr(ExecCd(cmd.args, os)))
  }

  /** The child branch of `fork_exec` as written: after rewiring, it runs
      the builtin and calls `process::exit(0)`, but every `?` on the way
      returns the error from `fork_exec` instead of exiting. */
  function ForkedChildAsWritten(cmd: Cmd, os: Os): (f: ChildFate)
    requires cmd.redirect ==> cmd.redirectPath.Some?
  {
    if cmd.redirect && cmd.redirectPath.value !in os.creatable then ChildReturnsErr
    else if cmd.command == "exit" then ChildExits(0)
    else if cmd.command == "pwd" then
      if PwdIsErr(ExecPwd(cmd.args, cmd.redirect, cmd.redirectPath, os)) then ChildReturnsErr else ChildExits(0)
    else if cmd.command == "cd" then
      if CdIsErr(ExecCd(cmd.args, os)) then ChildReturnsErr else ChildExits(0)
    else ChildExits(0)
  }

  /** The child as intended: it always terminates, with status 0 exactly
      when the code as written would have reached `process::exit(0)`. */
  function ForkedChild(cmd: Cmd, os: Os): (f: ChildFate)
    requires cmd.redirect ==> cmd.redirectPath.Some?
    ensures f.ChildExits?
    ensures f.status == 0 <==> ForkedChildAsWritten(cmd, os) == ChildExits(0)
    ensures f.status != 0 <==> ForkedChildAsWritten(cmd, os) == ChildReturnsErr
  {
    if ChildFails(cmd, os) then ChildExits(1) else ChildExits(0)
  }

  /** The forked child escapes exactly when its builtin fails. */
  lemma ForkedChildEscapes(cmd: Cmd, os: Os)
    requires cmd.redirect ==> cmd.redirectPath.Some?
    ensures ForkedChildAsWritten(cmd, os) == ChildReturnsErr <==> ChildFails(cmd, os)
  {
  }

  /** `cd /nonexistent | true`: the first stage is a forked `cd` whose
      directory cannot be entered. As written, its child returns into the
      caller's code instead of exiting; corrected, it exits with status 1. */
  lemma ForkedCdCounterexample(l: List, os: Os, installed: set<string>)
    requires TargetsPresent(l)
    requires Stages(l) == [Cmd("cd", ["/nonexistent"], false, None, true),
                           Cmd("true", [], false, None, false)]
    requires "/nonexistent" !in os.enterable
    ensures InvokePlan(l, true)[0].dispatch == Forked
    ensures StepChild(ChildReturnsErr) in RunPlanned(l, os, installed, AsWritten).started
    ensures StepChild(ChildExits(1)) in RunPlanned(l, os, installed, Corrected).started
  {
    PlanWiring(l);
    PlanReady(l);
    var plans := InvokePlan(l, true);
    assert Wired(plans[0], Stages(l), 0, true);
    assert ArgcIs(plans[0].cmd.args, 1);
    assert ChildFails(plans[0].cmd, os);
    RunLineEscapes(plans, os, installed, 0);
    assert StartStage(plans[0], os, installed, Corrected) == StepChild(ChildExits(1));
    assert RunLine(plans, os, installed, Corrected).started
      == [StepChild(ChildExits(1))] + RunLine(plans[1..], os, installed, Corrected).started;
  }

  /** Which child branch of `fork_exec` a line runs with: the code as
      written, whose child can return into the caller's code, or the
      corrected child, which always exits. */
  datatype Variant = AsWritten | Corrected

  /** How a forked child that ran `cmd` ends under each variant. */
  function ChildOf(cmd: Cmd, os: Os, v: Variant): (f: ChildFate)
    requires cmd.redirect ==> cmd.redirectPath.Some?
    ensures v == Corrected ==> f.ChildExits?
    ensures v == AsWritten ==> (f == ChildReturnsErr <==> ChildFails(cmd, os))
  {
    match v
    case AsWritten => ForkedChildAsWritten(cmd, os)
    case Corrected => ForkedChild(cmd, os)
  }

  /** What starting one stage does. */
  datatype StageStep =
    | StepProcess               // an external program was spawned
    | StepChild(fate: ChildFate) // a forked copy of the shell runs the builtin
    | StepDone                  // a builtin ran in the shell and returned Ok
    | StepExit                  // the shell process terminated
    | StepFailed                // an error was returned to the caller

  predicate Stops(step: StageStep) {
    step.StepExit? || step.StepFailed?
  }

  predicate StartsProcess(step: StageStep) {
    step.StepProcess? || step.StepChild?
  }

  /** The builtin branch for the sole stage (lib.rs:150-162). */
  function RunInShell(cmd: Cmd, os: Os): (step: StageStep)
    requires cmd.redirect ==> cmd.redirectPath.Some?
    ensures step == StepExit <==> cmd.command == "exit" && ArgcIs(cmd.args, 0)
    ensures step == StepFailed <==>
      || (cmd.command == "pwd" && PwdIsErr(ExecPwd(cmd.args, cmd.redirect, cmd.redirectPath, os)))
      || (cmd.command == "cd" && CdIsErr(ExecCd(cmd.args, os)))
    ensures !StartsProcess(step)
  {
    if cmd.command == "exit" then
      if ExecExit(cmd.args) == Terminate then StepExit else StepDone
    else if cmd.command == "pwd" then
      if PwdIsErr(ExecPwd(cmd.args, cmd.redirect, cmd.redirectPath, os)) then StepFailed else StepDone
    else if cmd.command == "cd" then
      if CdIsErr(ExecCd(cmd.args, os)) then StepFailed else StepDone
    else StepDone
  }

  /** Starting one planned stage; `installed` are the programs that can be
      spawned. A spawned stage fails if its redirect target cannot be
      created or its program cannot be started; forking is taken to
      succeed. */
  function StartStage(p: StagePlan, os: Os, installed: set<string>, v: Variant): StageStep
    requires p.cmd.redirect ==> p.cmd.redirectPath.Some?
  {
    match p.dispatch
    case InShell => RunInShell(p.cmd, os)
    case Forked => StepChild(ChildOf(p.cmd, os, v))
    case Spawned =>
      if p.stdout.ToFile? && p.stdout.path !in os.creatable then StepFailed
      else if p.cmd.command !in installed then StepFailed
      else StepProcess
  }

  predicate PlansReady(plans: seq<StagePlan>) {
    forall i :: 0 <= i < |plans| ==> (plans[i].cmd.redirect ==> plans[i].cmd.redirectPath.Some?)
  }

  datatype LineEnd = Finished | ShellExited | Failed

  /** The processes a line started, in order, and how `invoke_cmd` ended. */
  datatype LineRun = LineRun(started: seq<StageStep>, end: LineEnd)

  /** `invoke_cmd` over the plans in execution order: it stops at the
      first stage that fails or ends the shell, and the stages already
      started keep running. */
  function RunLine(plans: seq<StagePlan>, os: Os, installed: set<string>, v: Variant): (r: LineRun)
    requires PlansReady(plans)
    ensures |r.started| <= |plans|
    ensures forall s :: s in r.started ==> StartsProcess(s)
    decreases |plans|
  {
    if |plans| == 0 then LineRun([], Finished)
    else
      var step := StartStage(plans[0], os, installed, v);
      if step.StepFailed? then LineRun([], Failed)
      else if step.StepExit? then LineRun([], ShellExited)
      else
        var rest := RunLine(plans[1..], os, installed, v);
        if step.StepDone? then rest else LineRun([step] + rest.started, rest.end)
  }

  /** How many of the plans start a process. */
  function CountStarted(plans: seq<StagePlan>, os: Os, installed: set<string>, v: Variant): nat
    requires PlansReady(plans)
    decreases |plans|
  {
    if |plans| == 0 then 0
    else (if StartsProcess(StartStage(plans[0], os, installed, v)) then 1 else 0)
         + CountStarted(plans[1..], os, installed, v)
  }

  /** No stage of `plans` stops the line. */
  predicate NoStop(plans: seq<StagePlan>, os: Os, installed: set<string>, v: Variant)
    requires PlansReady(plans)
  {
    forall k :: 0 <= k < |plans| ==> !Stops(StartStage(plans[k], os, installed, v))
  }

  lemma ReadyTail(plans: seq<StagePlan>)
    requires |plans| > 0 && PlansReady(plans)
    ensures PlansReady(plans[1..])
  {
    forall i | 0 <= i < |plans| - 1 ensures plans[1..][i] == plans[i + 1] { }
  }

  /** The line finishes exactly when no stage stops it, having started one
      process per stage that starts one. */
  lemma {:induction false} RunLineFinishes(plans: seq<StagePlan>, os: Os, installed: set<string>, v: Variant)
    requires PlansReady(plans)
    ensures var r := RunLine(plans, os, installed, v);
      && (r.end == Finished <==> NoStop(plans, os, installed, v))
      && (r.end == Finished ==> |r.started| == CountStarted(plans, os, installed, v))
    decreases |plans|
  {
    if |plans| > 0 {
      var step := StartStage(plans[0], os, installed, v);
      var tail := plans[1..];
      ReadyTail(plans);
      if !Stops(step) {
        RunLineFinishes(tail, os, installed, v);
        if NoStop(tail, os, installed, v) {
          forall k | 0 <= k < |plans| ensures !Stops(StartStage(plans[k], os, installed, v)) {
            if k > 0 { assert plans[k] == tail[k - 1]; }
          }
        }
        if NoStop(plans, os, installed, v) {
          forall k | 0 <= k < |tail| ensures !Stops(StartStage(tail[k], os, installed, v)) {
            assert tail[k] == plans[k + 1];
          }
        }
      }
    }
  }

  /** The stage `k` of `plans` is the first to stop the line, and `count`
      processes were started before it. */
  predicate FirstStopAt(plans: seq<StagePlan>, os: Os, installed: set<string>, v: Variant, k: int, end: LineEnd, count: nat)
    requires PlansReady(plans)
  {
    && 0 <= k < |plans|
    && (forall j :: 0 <= j < k ==> !Stops(StartStage(plans[j], os, installed, v)))
    && (end == Failed <==> StartStage(plans[k], os, installed, v).StepFailed?)
    && (end == ShellExited <==> StartStage(plans[k], os, installed, v).StepExit?)
    && count == CountStarted(plans[..k], os, installed, v)
  }

  /** A stage that does not stop the line moves the first stop one on. */
  lemma FirstStopShift(plans: seq<StagePlan>, os: Os, installed: set<string>, v: Variant, k: int, end: LineEnd, count: nat)
    requires |plans| > 0 && PlansReady(plans)
    requires !Stops(StartStage(plans[0], os, installed, v))
    requires PlansReady(plans[1..]) && FirstStopAt(plans[1..], os, installed, v, k, end, count)
    ensures FirstStopAt(plans, os, installed, v, k + 1, end,
                        (if StartsProcess(StartStage(plans[0], os, installed, v)) then 1 else 0) + count)
  {
    var tail := plans[1..];
    assert plans[k + 1] == tail[k];
    forall j | 0 <= j < k + 1 ensures !Stops(StartStage(plans[j], os, installed, v)) {
      if j > 0 { assert plans[j] == tail[j - 1]; }
    }
    assert plans[..k + 1][1..] == tail[..k];
    assert plans[..k + 1][0] == plans[0];
  }

  /** A line that does not finish ends at the first stage that stops it,
      having started exactly the processes of the stages before it. */
  lemma {:induction false} RunLineStopsAtFirst(plans: seq<StagePlan>, os: Os, installed: set<string>, v: Variant)
    requires PlansReady(plans)
    ensures var r := RunLine(plans, os, installed, v);
      r.end != Finished ==> exists k :: FirstStopAt(plans, os, installed, v, k, r.end, |r.started|)
    decreases |plans|
  {
    if |plans| > 0 {
      var step := StartStage(plans[0], os, installed, v);
      var tail := plans[1..];
      ReadyTail(plans);
      if !Stops(step) {
        RunLineStopsAtFirst(tail, os, installed, v);
        var rest := RunLine(tail, os, installed, v);
        var r := RunLine(plans, os, installed, v);
        assert r.end == rest.end;
        assert |r.started| == (if StartsProcess(step) then 1 else 0) + |rest.started|;
        if rest.end != Finished {
          var k :| FirstStopAt(tail, os, installed, v, k, rest.end, |rest.started|);
          FirstStopShift(plans, os, installed, v, k, rest.end, |rest.started|);
        }
      } else {
        assert plans[..0] == [];
        assert FirstStopAt(plans, os, installed, v, 0, RunLine(plans, os, installed, v).end, 0);
      }
    }
  }

  /** With the corrected child, every forked child a line starts
      terminates. */
  lemma {:induction false} RunLineChildrenExit(plans: seq<StagePlan>, os: Os, installed: set<string>, v: Variant)
    requires PlansReady(plans) && v == Corrected
    ensures forall s :: s in RunLine(plans, os, installed, v).started && s.StepChild? ==> s.fate.ChildExits?
    decreases |plans|
  {
    if |plans| > 0 {
      ReadyTail(plans);
      RunLineChildrenExit(plans[1..], os, installed, v);
    }
  }

  /** With the code as written, a forked stage that the line reaches and
      whose builtin fails leaves a child that returns into the caller's
      code instead of exiting. */
  lemma {:induction false} RunLineEscapes(plans: seq<StagePlan>, os: Os, installed: set<string>, k: nat)
    requires PlansReady(plans)
    requires k < |plans| && plans[k].dispatch == Forked && ChildFails(plans[k].cmd, os)
    requires forall j :: 0 <= j < k ==> !Stops(StartStage(plans[j], os, installed, AsWritten))
    ensures StepChild(ChildReturnsErr) in RunLine(plans, os, installed, AsWritten).started
    decreases k
  {
    ReadyTail(plans);
    var step := StartStage(plans[0], os, installed, AsWritten);
    if k == 0 {
      assert step == StepChild(ChildReturnsErr);
    } else {
      var tail := plans[1..];
      assert !Stops(step);
      forall j | 0 <= j < k - 1 ensures !Stops(StartStage(tail[j], os, installed, AsWritten)) {
        assert tail[j] == plans[j + 1];
      }
      assert tail[k - 1] == plans[k];
      RunLineEscapes(tail, os, installed, k - 1);
    }
  }

  /** The line finishes when no stage stops it; otherwise it ends at the
      first stage that stops it, having started exactly the processes of
      the stages before that one. With the corrected child, every forked
      child terminates. */
  lemma RunLineSpec(plans: seq<StagePlan>, os: Os, installed: set<string>, v: Variant)
    requires PlansReady(plans)
    ensures var r := RunLine(plans, os, installed, v);
      && (r.end == Finished <==> NoStop(plans, os, installed, v))
      && (r.end == Finished ==> |r.started| == CountStarted(plans, os, installed, v))
      && (r.end != Finished ==> exists k :: FirstStopAt(plans, os, installed, v, k, r.end, |r.started|))
      && (v == Corrected ==> forall s :: s in r.started && s.StepChild? ==> s.fate.ChildExits?)
  {
    RunLineFinishes(plans, os, installed, v);
    RunLineStopsAtFirst(plans, os, installed, v);
    if v == Corrected {
      RunLineChildrenExit(plans, os, installed, v);
    }
  }

  /** A line with a stage naming a program that cannot be started never
      finishes normally (`NOTFOUND`, `NOTFOUND | ls`, `ls | NOTFOUND`). */
  lemma MissingProgramFails(plans: seq<StagePlan>, os: Os, installed: set<string>, v: Variant, k: nat)
    requires PlansReady(plans)
    requires k < |plans| && plans[k].dispatch == Spawned && plans[k].cmd.command !in installed
    ensures RunLine(plans, os, installed, v).end != Finished
  {
    RunLineSpec(plans, os, installed, v);
    assert Stops(StartStage(plans[k], os, installed, v));
  }

  lemma PlanReady(l: List)
    requires TargetsPresent(l)
    ensures PlansReady(InvokePlan(l, true))
  {
    forall i | 0 <= i < |Stages(l)| ensures Stages(l)[i] in Stages(l) { }
  }

  /** Planning and running a whole list, as the caller's
      `invoke_cmd(&mut list, true)` does. */
  function RunPlanned(l: List, os: Os, installed: set<string>, v: Variant): LineRun
    requires TargetsPresent(l)
  {
    PlanReady(l);
    RunLine(InvokePlan(l, true), os, installed, v)
  }

  /** The builtin flag marks exactly the builtin names, as `parse` sets it. */
  predicate BuiltinFlagsExact(l: List) {
    forall c :: c in Stages(l) ==> (c.builtin <==> IsBuiltinName(c.command))
  }

  /** Only a stage planned in the shell can end the shell, and only a
      lone bare `exit` is planned that way with that effect. */
  lemma ExitStepIsBareExit(l: List, os: Os, installed: set<string>, v: Variant, k: nat)
    requires TargetsPresent(l)
    requires k < |Stages(l)|
    requires StartStage(InvokePlan(l, true)[k], os, installed, v).StepExit?
    ensures |Stages(l)| == 1 && Stages(l)[0].command == "exit" && ArgcIs(Stages(l)[0].args, 0)
  {
    PlanWiring(l);
    assert Wired(InvokePlan(l, true)[k], Stages(l), k, true);
  }

  lemma ShellExitedHasExitStep(plans: seq<StagePlan>, os: Os, installed: set<string>, v: Variant)
    requires PlansReady(plans)
    requires RunLine(plans, os, installed, v).end == ShellExited
    ensures exists k :: 0 <= k < |plans| && StartStage(plans[k], os, installed, v).StepExit?
  {
    RunLineSpec(plans, os, installed, v);
  }

  /** Running a list ends the shell exactly when it is a lone `exit` with
      no arguments; `exit | true` never does. */
  lemma ShellExitsOnlyOnBareExit(l: List, os: Os, installed: set<string>, v: Variant)
    requires TargetsPresent(l) && BuiltinFlagsExact(l)
    ensures RunPlanned(l, os, installed, v).end == ShellExited
            <==> |Stages(l)| == 1 && Stages(l)[0].command == "exit" && ArgcIs(Stages(l)[0].args, 0)
  {
    PlanReady(l);
    var plans := InvokePlan(l, true);
    var st := Stages(l);
    if |st| == 1 && st[0].command == "exit" && ArgcIs(st[0].args, 0) {
      assert st[0] in st;
      PlanWiring(l);
      assert Wired(plans[0], st, 0, true);
      assert StartStage(plans[0], os, installed, v) == StepExit;
      assert RunLine(plans, os, installed, v).end == ShellExited;
    }
    if RunPlanned(l, os, installed, v).end == ShellExited {
      ShellExitedHasExitStep(plans, os, installed, v);
      var k :| 0 <= k < |plans| && StartStage(plans[k], os, installed, v).StepExit?;
      ExitStepIsBareExit(l, os, installed, v, k);
    }
  }

  /** The lists `parse` returns meet the requirements of the executor and
      of `ShellExitsOnlyOnBareExit`. */
  lemma ParsedListReady(input: string)
    requires Parse(input).Ok?
    ensures TargetsPresent(Parse(input).value) && BuiltinFlagsExact(Parse(input).value)
  {
    ParsedStagesWellFormed(input);
  }
}
