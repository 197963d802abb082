# shell_in_rust: the command-line parser and stage planner, in Dafny

`shell_in_rust` is a small Unix shell. It reads a line, splits it on `|` into
stages, and resolves at most one `>` redirect per stage. Each stage becomes a
`Cmd` record, and the records are collected into a cons-list whose head is the
LAST stage. The shell then starts the stages from the first to the last. Each
external program is spawned with its standard input and output wired by pipes.
The builtins `exit`, `pwd` and `cd` run inside the shell when they make up the
whole line, and in a forked copy of the shell otherwise.

This project models that core as pure functions and proves what they guarantee:

- `results.dfy`: `Option` and `Result`.
- `text.dfy`: the string primitives the parser relies on.
  - `char::is_whitespace`, as the Unicode White_Space set.
  - `trim`, `split` on one character, `join`, and `split_whitespace`.
  - Their round trips and how they interact.
- `shell.dfy` (src/lib.rs):
  - `Cmd`, `List`, `get_cmd_num`, `parse_redirect` and `parse`.
  - A segment-by-segment reading of `parse`, shown equal to the loop.
- `builtins.dfy` (src/lib.rs): the argument-count rules and outcomes of
  `exec_exit`, `exec_pwd` and `exec_cd`. The operating system is a parameter:
  the current directory, the directories that can be entered, the files
  that can be created, and the created files whose writes succeed. The
  `args.len() as i32` count the builtins receive is modelled with its 32-bit
  wrap-around.
- `executor.dfy` (src/lib.rs): the per-stage decisions of `invoke_cmd`,
  `get_stdin`, `get_stdout` and `fork_exec`.
  - Where each stage reads and writes.
  - Whether it runs in the shell, forked, or spawned.
  - How starting the stages of a line ends.
- `legacy.dfy` (src/main.rs): the older parser of the binary, without
  redirects or builtin flags.
- `agreement.dfy`: the two parsers agree on every line that has no `>`.
- `parse_examples.dfy`: the command lines of tests/integration_test.rs.
  - Each is stated for arbitrary words, not the literal ones: `a b > t`
    rather than `ls -l > /dev/null`.
  - Each is derived from the general lemmas.

Strings are `seq<char>`, i.e. sequences of Unicode scalar values, which is
what a Rust `&str` holds. The two syntax errors are the constructors
`UnexpectedPipe` and `UnexpectedRedirect`, standing for the messages
"Syntax error near unexpected '|'" and "Syntax error near unexpected '>'".

## Model

| member | source | states |
|---|---|---|
| Text.Trim | src/lib.rs:73 | The trimmed line is no longer than the input and neither starts nor ends with whitespace |
| Text.TrimEmpty | src/lib.rs:73 | A line trims to the empty string exactly when it is all whitespace |
| Text.Split | src/lib.rs:73 | Splitting on a character gives one more piece than the character's occurrences, and no piece contains it |
| Text.SplitJoin | src/lib.rs:73 | Joining the pieces of a split with the separator gives back the original text |
| Text.JoinSplit | src/lib.rs:114 | Splitting a join of separator-free pieces gives back exactly those pieces |
| Text.Tokens | src/lib.rs:84 | Every token `split_whitespace` yields is non-empty and free of whitespace |
| Text.TokensEmpty | src/lib.rs:86-93 | A text has no token exactly when it is all whitespace |
| Text.TokensSplitAt | src/lib.rs:124 | Cutting a text at a whitespace character splits its token list into the tokens of the two halves |
| Text.TokensTrim | src/lib.rs:84 | Trimming before `split_whitespace` does not change the tokens |
| Text.TokensOfJoin | src/lib.rs:123-124 | Joining words with single spaces and tokenizing again gives back the same words |
| Shell.Stages | src/lib.rs:41-44 | A non-empty list's head is its last stage in execution order, and only `Nil` has no stages |
| Shell.GetCmdNum | src/lib.rs:53-68 | The count of list cells equals the number of stages |
| Shell.ParseRedirect | src/lib.rs:113-132 | No `>` leaves the segment unchanged with no target; two or more `>` give the `>` error; success carries a target exactly when there is one `>`; the only error is the `>` error |
| Shell.Segments | src/lib.rs:73-74 | A line has one more segment than its trimmed text has `\|` characters |
| Shell.OneRedirectSplits | src/lib.rs:114-116 | A segment with exactly one `>` is the `>`-free text before it, the `>`, and the `>`-free text after it |
| Shell.RedirectAnywhere | src/lib.rs:113-125 | A single `>` is rejected exactly when no token follows it; otherwise the first token after it is the target, and the command words are the tokens before it followed by the remaining tokens after the target |
| Shell.StageOfPlain | src/lib.rs:129-131 | A segment without `>` contributes its own tokens, and becomes an unredirected stage of those words |
| Shell.StageOfRedirect | src/lib.rs:116-125 | Wherever the `>` and its target stand among the words, the stage is the same redirected command with the same target |
| Shell.RedirectFault | src/lib.rs:79-82 | The redirect checks come before the blank-segment check: two `>`, or one `>` with no target, stop the parse with the `>` error even in a blank segment |
| Shell.MakeCmdWellFormed | src/lib.rs:77-105 | A stage built from words holding no whitespace, `\|` or `>` keeps every `Cmd` invariant |
| Shell.StageOfWellFormed | src/lib.rs:79-105 | Every stage built from one `\|`-free segment keeps the `Cmd` invariants |
| Shell.ParseLoopOk | src/lib.rs:76-108 | The loop succeeds exactly when no segment is faulty |
| Shell.ParseLoopFirstFault | src/lib.rs:79-97 | A failing loop reports the fault of its first faulty segment, and every segment before that one is fault-free |
| Shell.ParseLoopStages | src/lib.rs:84-107 | A successful loop appends exactly one stage per segment, in segment order. The only exception is a line of one blank segment, which adds nothing |
| Shell.ParseSpec | src/lib.rs:71-111 | `parse` is rejected exactly when some segment is faulty, with the first fault. An accepted line gives one stage per segment in left-to-right order, or `Nil` for a single blank segment |
| Shell.BlankLineParsesToNil | src/lib.rs:93-99 | An empty or all-whitespace line parses to the empty list |
| Shell.EmptySegmentRejected | src/lib.rs:93-97 | In a line of two or more segments, a segment with no tokens makes the parse fail |
| Shell.BadRedirectRejected | src/lib.rs:79-82 | A segment whose redirect is malformed makes the whole parse fail |
| Shell.ParseOrder | src/lib.rs:107 | An accepted non-empty list has as many stages as segments; stage `i` in execution order is segment `i`'s stage, so the list's head is the last segment's stage |
| Shell.ParsedStagesWellFormed | src/lib.rs:86-105 | Every parsed stage keeps the invariants: the builtin flag marks exactly `exit`/`pwd`/`cd`; the redirect flag marks exactly a present target; no word is empty or holds whitespace, `\|` or `>` |
| Builtins.ArgCount | src/lib.rs:152 | The `args.len() as i32` count is a 32-bit two's-complement value congruent to the real count modulo 2^32, and equal to it below 2^31 arguments |
| Builtins.ExecExit | src/lib.rs:291-297 | `exit` terminates the process exactly when `argc` reads as zero after the cast: the count is a multiple of 2^32, which below 2^31 arguments means no arguments |
| Builtins.ExecPwd | src/lib.rs:299-323 | `pwd` rejects any `argc` other than zero, and reports a missing working directory. Otherwise it writes the working directory and a newline into the target, or prints it when there is no target. It is an error exactly when the target cannot be created or a write into it fails |
| Builtins.ExecCd | src/lib.rs:325-334 | `cd` rejects any `argc` other than one after the cast (below 2^31 arguments: any count but one). It changes to exactly its first argument when that directory can be entered, and is an error exactly when it cannot |
| Executor.InvokePlan | src/lib.rs:135-147 | The recursion plans one stage per list cell, in execution order, each carrying its own `Cmd` |
| Executor.InvokePlanWired | src/lib.rs:135-215 | At any depth of the recursion, each stage's stdin, stdout and dispatch follow the wiring rules by position |
| Executor.PlanWiring | src/lib.rs:193-215 | Each stage reads the inherited input if it is first, nothing if the stage before it was redirected, and that stage's pipe otherwise. It writes to its target, to the inherited output if last, or to a pipe |
| Executor.InShellOnlyWhenAlone | src/lib.rs:138-165 | A stage runs inside the shell exactly when it is a builtin and the only stage of the line |
| Executor.RunInShell | src/lib.rs:149-162 | A lone builtin ends the shell exactly when it is `exit` whose `argc` reads as zero. It fails exactly when `pwd` or `cd` fails, and it never starts a process |
| Executor.ForkedChildEscapes | src/lib.rs:240-284 | The forked child as written returns into the caller's code instead of exiting exactly when its redirect or builtin fails |
| Executor.ForkedCdCounterexample | src/lib.rs:279-281 | In `cd /nonexistent \| true` the `cd` stage is forked. Running the line as written records a child that returns an error instead of exiting; with the corrected child it exits with status 1 |
| Executor.ForkedChild | src/lib.rs:240-284 | The corrected child always exits. Its status is 0 exactly when the code as written reaches `process::exit(0)`, and non-zero exactly when it would escape |
| Executor.ChildOf | src/lib.rs:240-284 | As written, a forked child returns into the caller's code exactly when its redirect or builtin fails; the corrected child always exits |
| Executor.RunLine | src/lib.rs:135-191 | Starting a line starts at most one process per stage, and every recorded step is a spawned program or a forked child |
| Executor.RunLineFinishes | src/lib.rs:143 | The line finishes exactly when no stage fails or ends the shell. It then has started one process per process-starting stage |
| Executor.RunLineStopsAtFirst | src/lib.rs:143 | A line that does not finish ends at the first stage that fails or exits, having started exactly the processes of the stages before it |
| Executor.RunLineChildrenExit | src/lib.rs:283 | Corrected side of the finding: run with the corrected child, every forked child a line starts terminates |
| Executor.RunLineEscapes | src/lib.rs:240-284 | As-written side of the finding: run with the code as written, a forked stage that the line reaches and whose builtin fails leaves a child that returns into the caller's code |
| Executor.RunLineSpec | src/lib.rs:135-191 | How starting a line ends, under either child variant: it finishes exactly when no stage stops it, and otherwise stops at the first stopping stage. Only with the corrected child does every forked child exit |
| Executor.MissingProgramFails | src/lib.rs:170-186 | A line with a spawned stage naming a program that cannot be started never finishes normally |
| Executor.ExitStepIsBareExit | src/lib.rs:149-152 | Only the sole stage of a line can end the shell, and only as `exit` whose `argc` reads as zero |
| Executor.ShellExitedHasExitStep | src/lib.rs:152 | A line that ended the shell has a stage whose start ended it |
| Executor.ShellExitsOnlyOnBareExit | src/lib.rs:138-164 | Running a parsed list, under either child variant, ends the shell exactly when the line is a lone `exit` whose `argc` reads as zero, so `exit \| true` does not |
| Executor.ParsedListReady | src/lib.rs:86-122 | Every list `parse` accepts has a target on each redirected stage and builtin flags matching the names, as the executor requires |
| Legacy.ParseLoopOk | src/main.rs:65-85 | The older loop succeeds exactly when the line has one segment or every segment has a token |
| Legacy.ParseLoopStages | src/main.rs:66-84 | A successful older loop appends one stage per segment in order, unless the line is one blank segment |
| Legacy.ParseSpec | src/main.rs:60-88 | The older `parse` is rejected exactly when a line of several segments has a blank one. An accepted line gives one stage per segment in order, made of its first token and the following ones, or `Nil` for one blank segment |
| Legacy.BlankLineParsesToNil | src/main.rs:71-76 | An empty or all-whitespace line parses to the empty list |
| Legacy.EmptySegmentRejected | src/main.rs:71-74 | With two or more segments, a segment without tokens is rejected |
| LegacyAgreement.LoopsAgree | src/main.rs:65-85 | On `>`-free segments, the two loops step in lockstep. They give the same list once the redirect and builtin flags are dropped, and fail together with the `\|` error |
| LegacyAgreement.ParsersAgree | src/main.rs:60-88 | On any line without `>`, the older parser returns the library parser's result with the flags dropped, and the library rejects only with the `\|` error |
| ParseExamples.PlainLine | src/lib.rs:129-131 | A line with tokens and without `\|` or `>` parses to one unredirected stage of its tokens |
| ParseExamples.PipeLine | src/lib.rs:73-107 | Two `\|`-separated one-word segments parse to the two stages, with the last stage at the head |
| ParseExamples.RedirectLine | src/lib.rs:113-125 | A one-segment line with a single `>` followed by a target parses to one redirected stage. The words before and after the target are kept in order |
| ParseExamples.CommandWithArgs | tests/integration_test.rs:12 | `a b c ...` parses to one stage whose command is the first word and whose arguments are the rest |
| ParseExamples.PipeSpaced | tests/integration_test.rs:32 | `a \| b` parses to two stages with `b` at the head of the list |
| ParseExamples.PipeTight | tests/integration_test.rs:46 | `a\|b` parses the same as `a \| b` |
| ParseExamples.PipeFirst | tests/integration_test.rs:65 | `\| a` is rejected with the `\|` error |
| ParseExamples.PipeLast | tests/integration_test.rs:70 | `a \| ` is rejected with the `\|` error |
| ParseExamples.PipeAlone | tests/integration_test.rs:75 | A lone `\|` is rejected with the `\|` error |
| ParseExamples.RedirectAfter | tests/integration_test.rs:106 | `a b > t` is the stage `a b` redirected to `t` |
| ParseExamples.RedirectTouching | tests/integration_test.rs:113 | `a b>t` is the same stage as `a b > t` |
| ParseExamples.RedirectFirst | tests/integration_test.rs:120 | `> t a b` is the same stage as `a b > t` |
| ParseExamples.RedirectBetween | tests/integration_test.rs:127 | `a > t b` is the same stage as `a b > t` |
| ParseExamples.RedirectOnly | src/lib.rs:93-99 | A line holding only a redirect, `> t`, has no command: it parses to the empty list and the redirect is dropped |
| ParseExamples.RedirectTwice | tests/integration_test.rs:141 | `a b > t > u` is rejected with the `>` error |
| ParseExamples.RedirectWithoutTarget | tests/integration_test.rs:146 | `a b > ` is rejected with the `>` error |

## Left out

- The operating system is left out: processes, pipes, `dup2`, `close`, file creation, writes and `waitpid`. Its answers are parameters: `Builtins.Os` and the set of installed programs. Forks, pipes and descriptor calls are taken to succeed.
- Executor.RunLine: the line is run with either child variant (`Executor.Variant`). The source is `AsWritten`; `Corrected` is the fix from the finding below.
- `wait_cmdline` (src/lib.rs:336-354) is left out. It only reaps the processes a line started, and `Executor.RunLine` records those.
- The runtime slots of `Cmd`: `child`, `pid` and `fd0`. They hold handles and descriptors, which appear in the model only as the `StdinCfg`/`StdoutCfg` each stage is planned with.
- The `File::create("/dev/null")` that a redirected spawned stage opens as its `fd0` is left out. It is taken to succeed.
- Bytes the builtins print are left out, and so is whether a later stage receives them. Only the outcome (`PwdPrinted`, `PwdWritten`) is modelled.
- The exact message strings on standard error are left out. Each error is its `ParseError` constructor or its outcome constructor.
- Builtins.ExecPwd: a working directory that is not valid UTF-8 cannot be represented, because strings here are Unicode scalar values. So the panic of `to_str().unwrap()` (src/lib.rs:312) is not modelled, and neither is a failing `println!`.
- Shell.GetCmdNum: returns an unbounded `nat` where the source returns a wrapping `i32`.
- `main` and `invoke_cmd` of src/main.rs (lines 34-58 and 90 on) are left out. They are the binary's read loop and an older executor; only its `parse` is modelled.
- The stages a failing line has already started are not reaped, as in the source. `Executor.RunLine` records them as started and stops.

## Findings

| source | as written | input that shows it | evidently intended | confidence | as-written member | corrected member |
|---|---|---|---|---|---|---|
| src/lib.rs:240-284 | In the forked child, every `?` (creating the redirect target, `exec_pwd`, `exec_cd`) returns the error out of `fork_exec` instead of exiting. The child then goes on running the caller's code as a second shell | `cd /nonexistent \| true` | The child always terminates, with a non-zero status when its builtin fails | not executed | Executor.ForkedCdCounterexample | Executor.ForkedChild |
