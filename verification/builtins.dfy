/** The argument-count and outcome decisions of the three builtins
    (`exec_exit`, `exec_pwd`, `exec_cd` in src/lib.rs). The operating system
    is a parameter: the working directory the process can read, the
    directories it may enter, and the paths it may create. */
module Builtins {
  import opened Results

  /** What the builtins ask of the operating system: the working directory
      if it can be read, the directories that can be entered, the paths
      that can be created, and the created paths whose writes succeed. */
  datatype Os = Os(cwd: Option<string>, enterable: set<string>, creatable: set<string>,
                   writable: set<string>)

  datatype ExitOutcome =
    | Terminate           // process::exit(0)
    | ExitWrongArgument   // "exit: wrong argument", then return

  datatype PwdOutcome =
    | PwdWrongArgument            // "pwd: wrong argument"; still Ok
    | PwdNoCwd                    // "pwd: cannot get working directory"; still Ok
    | PwdPrinted(text: string)    // written to standard output
    | PwdWritten(path: string, text: string)  // written into the redirect target
    | PwdFileError(path: string)  // the target could not be created: Err
    | PwdWriteError(path: string) // a write into the created target failed: Err

  datatype CdOutcome =
    | CdWrongArgument             // "cd: wrong argument"; still Ok
    | CdChanged(dir: string)      // the working directory is now `dir`
    | CdFailed(dir: string)       // set_current_dir failed: Err

  /** Whether the builtin's `Result` is an `Err`. Wrong argument counts
      are reported but are not errors. */
  predicate PwdIsErr(o: PwdOutcome) { o.PwdFileError? || o.PwdWriteError? }
  predicate CdIsErr(o: CdOutcome) { o.CdFailed? }

  /** `args.len() as i32`, the `argc` every builtin receives: the count
      cut to its low 32 bits and read as a two's-complement number. */
  function ArgCount(args: seq<string>): (argc: int)
    ensures -0x8000_0000 <= argc < 0x8000_0000
    ensures (argc - |args|) % 0x1_0000_0000 == 0
    ensures |args| < 0x8000_0000 ==> argc == |args|
  {
    var low := |args| % 0x1_0000_0000;
    if low < 0x8000_0000 then low else low - 0x1_0000_0000
  }

  /** The argument list reads as `argc == k` after the cast, for a small `k`. */
  predicate ArgcIs(args: seq<string>, k: nat)
    requires k < 0x8000_0000
  {
    |args| % 0x1_0000_0000 == k
  }

  lemma ArgCountIs(args: seq<string>, k: nat)
    requires k < 0x8000_0000
    ensures ArgCount(args) == k <==> ArgcIs(args, k)
  {
  }

  /** Below 2^31 arguments the cast is exact. */
  lemma ArgcIsExact(args: seq<string>, k: nat)
    requires k < 0x8000_0000 && |args| < 0x8000_0000
    ensures ArgcIs(args, k) <==> |args| == k
  {
  }

  /** `exec_exit`: terminates the process only when `argc` is zero. */
  function ExecExit(args: seq<string>): (r: ExitOutcome)
    ensures r == Terminate <==> ArgcIs(args, 0)
    ensures |args| < 0x8000_0000 ==> (r == Terminate <==> args == [])
  {
    ArgCountIs(args, 0);
    if ArgCount(args) != 0 then ExitWrongArgument else Terminate
  }

  /** `exec_pwd`: when `argc` is zero, the working directory plus a
      newline goes to the redirect target when there is one and to
      standard output otherwise. Failing to create the target or to write
      into it is an error; the other outcomes are reported and return Ok. */
  function ExecPwd(args: seq<string>, redirect: bool, redirectPath: Option<string>, os: Os): (r: PwdOutcome)
    requires redirect ==> redirectPath.Some?
    ensures r.PwdWrongArgument? <==> !ArgcIs(args, 0)
    ensures r.PwdNoCwd? <==> ArgcIs(args, 0) && os.cwd.None?
    ensures r.PwdPrinted? <==> ArgcIs(args, 0) && os.cwd.Some? && !redirect
    ensures (r.PwdPrinted? || r.PwdWritten?) ==> r.text == os.cwd.value + "\n"
    ensures r.PwdWritten? ==> redirect && r.path == redirectPath.value
                              && r.path in os.creatable && r.path in os.writable
    ensures PwdIsErr(r) <==> ArgcIs(args, 0) && os.cwd.Some? && redirect
                             && (redirectPath.value !in os.creatable || redirectPath.value !in os.writable)
    ensures r.PwdFileError? ==> r.path == redirectPath.value && r.path !in os.creatable
  {
    ArgCountIs(args, 0);
    if ArgCount(args) != 0 then PwdWrongArgument
    else match os.cwd
      case None => PwdNoCwd
      case Some(s) =>
        if redirect then
          var path := redirectPath.value;
          if path !in os.creatable then PwdFileError(path)
          else if path !in os.writable then PwdWriteError(path)
          else PwdWritten(path, s + "\n")
        else PwdPrinted(s + "\n")
  }

  /** `exec_cd`: changes directory only when `argc` is one; a directory
      that cannot be entered is an error and changes nothing. */
  function ExecCd(args: seq<string>, os: Os): (r: CdOutcome)
    ensures r.CdWrongArgument? <==> !ArgcIs(args, 1)
    ensures r.CdChanged? ==> ArgcIs(args, 1) && r.dir == args[0] && args[0] in os.enterable
    ensures CdIsErr(r) <==> ArgcIs(args, 1) && args[0] !in os.enterable
    ensures |args| < 0x8000_0000 ==> (r.CdWrongArgument? <==> |args| != 1)
  {
    ArgCountIs(args, 1);
    if ArgCount(args) != 1 then CdWrongArgument
    else
      var dir := args[0];
      if dir in os.enterable then CdChanged(dir) else CdFailed(dir)
  }
}
