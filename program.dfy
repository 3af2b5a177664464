/** `Main`: parse, show help or validate, then plan the renames, mapping each
    way out to the process exit code. */
module Program {
  import opened Wrappers
  import opened CommandLine
  import opened Validation
  import opened Planner
  import opened Planning

  /** One run of the program on `args`, with `files` the folder's listing:
      a parse error exits with its own code, `--help` exits 0 before any
      check, a failed check exits 2, and otherwise the plan is made and the
      run exits 0. */
  method Execute(args: seq<string>, cwd: string, files: seq<FileRec>, existing: set<string>, host: Host)
    returns (code: int, plan: seq<Entry>)
    ensures ParseArgs(args, cwd).Failure? ==>
              code == ExitCode(Failure(ParseArgs(args, cwd).error)) && plan == []
    ensures ParseArgs(args, cwd).Success? && ParseArgs(args, cwd).value.showHelp ==>
              code == 0 && plan == []
    ensures ParseArgs(args, cwd).Success? && !ParseArgs(args, cwd).value.showHelp && !Acceptable(ParseArgs(args, cwd).value) ==>
              code == 2 && plan == []
    ensures ParseArgs(args, cwd).Success? && !ParseArgs(args, cwd).value.showHelp && Acceptable(ParseArgs(args, cwd).value) ==>
              code == 0 && plan == Planned(PlanFor(Normalized(ParseArgs(args, cwd).value), existing, host), ParseArgs(args, cwd).value.sequenceStart, files).plan
  {
    var parsed := Parse(args, cwd);
    if parsed.Failure? {
      return ExitCode(Failure(parsed.error)), [];
    }
    var opts := parsed.value;
    if opts.showHelp {
      return 0, [];
    }
    var checked := Validate(opts);
    if checked.Failure? {
      return ExitCode(Failure(Usage(checked.error))), [];
    }
    plan := Run(checked.value, files, existing, host);
    return 0, plan;
  }
}
