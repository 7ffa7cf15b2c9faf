/** `Execution::run` in src/lib.rs: split the tokens into a command and its
    arguments, hand both with the environment bindings to the operating
    system, and insist that the process could be started and succeeded.
    Every panic of the source is a `Panicked` verdict here. */
module Launcher {
  import opened Wrappers
  import opened Utf8
  import opened Diagnostic

  /** One environment variable binding, name and value. */
  type Binding = (string, string)

  /** What `Command::new(cmd).args(args).envs(env)` hands to the operating
      system. */
  datatype Command = Command(program: string, args: seq<string>, env: seq<Binding>)

  /** The result of `.output()`: the finished process, or the OS error that
      kept it from starting. */
  datatype Spawned = Spawned(output: Output) | SpawnError(osError: string)

  /** The operating system's process creation, taken as given. */
  type Spawner = Command -> Spawned

  /** Why a launch panicked. */
  datatype Panic =
    | MissingCommand                      // no token at all
    | FailedToExecute(osError: string)    // the process could not be started
    | AssertionFailed(diagnostic: string) // it ran and did not succeed
    | InvalidUtf8(stream: Stream)         // its diagnostic could not be written

  datatype Verdict = Returned | Panicked(panic: Panic)

  /** A launch: the command handed to the operating system, if any, and how
      the call ended. */
  datatype Launch = Launch(spawned: Option<Command>, verdict: Verdict)

  /** The first token is the command, the rest are its arguments in order. */
  function Split(tokens: seq<string>): (r: Option<(string, seq<string>)>)
    ensures r.None? <==> tokens == []
    ensures r.Some? ==> [r.value.0] + r.value.1 == tokens
  {
    if tokens == [] then None else Some((tokens[0], tokens[1..]))
  }

  /** How a launch of `tokens` with bindings `env` ends when the operating
      system answers as `spawn` does. A process is created only for a
      non-empty token sequence, with exactly those tokens and bindings, and
      the call returns normally exactly when the process started and its
      status is success. */
  function Outcome(tokens: seq<string>, env: seq<Binding>, spawn: Spawner): (r: Launch)
    ensures r.spawned.None? <==> tokens == []
    ensures tokens == [] ==> r.verdict == Panicked(MissingCommand)
    ensures r.spawned.Some? ==>
      [r.spawned.value.program] + r.spawned.value.args == tokens && r.spawned.value.env == env
    ensures r.verdict == Returned <==>
      r.spawned.Some? && spawn(r.spawned.value).Spawned? && spawn(r.spawned.value).output.status.success
  {
    match Split(tokens)
    case None => Launch(None, Panicked(MissingCommand))
    case Some((cmd, args)) =>
      var command := Command(cmd, args, env);
      match spawn(command)
      case SpawnError(err) => Launch(Some(command), Panicked(FailedToExecute(err)))
      case Spawned(out) =>
        if out.status.success then Launch(Some(command), Returned)
        else match Display(Execution(cmd, args, Some(out)))
          case Ok(diagnostic) => Launch(Some(command), Panicked(AssertionFailed(diagnostic)))
          case Err(stream) => Launch(Some(command), Panicked(InvalidUtf8(stream)))
  }

  /** The launch as the source runs it: build the `Execution` record with no
      result, start the process, store its output in the record, and format
      the record only when the status is not success. */
  method Run(tokens: seq<string>, env: seq<Binding>, spawn: Spawner) returns (r: Launch)
    ensures r == Outcome(tokens, env, spawn)
  {
    var split := Split(tokens);
    if split.None? {
      return Launch(None, Panicked(MissingCommand));
    }
    var exec := Execution(split.value.0, split.value.1, None);
    var command := Command(exec.cmd, exec.args, env);
    var spawned := spawn(command);
    if spawned.SpawnError? {
      return Launch(Some(command), Panicked(FailedToExecute(spawned.osError)));
    }
    exec := exec.(result := Some(spawned.output));
    if !exec.result.value.status.success {
      var message := Fmt(exec);
      match message
      case Ok(diagnostic) =>
        return Launch(Some(command), Panicked(AssertionFailed(diagnostic)));
      case Err(stream) =>
        return Launch(Some(command), Panicked(InvalidUtf8(stream)));
    }
    r := Launch(Some(command), Returned);
  }

  /** A process that cannot be started ends the launch with the OS error. */
  lemma SpawnErrorFails(tokens: seq<string>, env: seq<Binding>, spawn: Spawner)
    requires tokens != [] && spawn(Command(tokens[0], tokens[1..], env)).SpawnError?
    ensures Outcome(tokens, env, spawn).verdict
      == Panicked(FailedToExecute(spawn(Command(tokens[0], tokens[1..], env)).osError))
  {
  }

  /** A process that ran and did not succeed ends the launch with the whole
      diagnostic of its `Execution` record, which opens with the coloured
      command line made of exactly the given tokens, unless a non-empty
      stream is not UTF-8; then the launch ends on that stream, stdout being
      decoded first. */
  lemma NonSuccessCarriesDiagnostic(tokens: seq<string>, env: seq<Binding>, spawn: Spawner)
    requires tokens != [] && spawn(Command(tokens[0], tokens[1..], env)).Spawned?
    requires !spawn(Command(tokens[0], tokens[1..], env)).output.status.success
    ensures var out := spawn(Command(tokens[0], tokens[1..], env)).output;
      var v := Outcome(tokens, env, spawn).verdict;
      && (v.Panicked? && v.panic.AssertionFailed? <==>
            (out.stdout == [] || IsUtf8(out.stdout)) && (out.stderr == [] || IsUtf8(out.stderr)))
      && (v.Panicked? && v.panic.AssertionFailed? ==> Magenta + Join(tokens) + Reset <= v.panic.diagnostic)
      && (v == Panicked(InvalidUtf8(Stdout)) <==> out.stdout != [] && !IsUtf8(out.stdout))
      && (v == Panicked(InvalidUtf8(Stderr)) <==>
            (out.stdout == [] || IsUtf8(out.stdout)) && out.stderr != [] && !IsUtf8(out.stderr))
      && var e := Execution(tokens[0], tokens[1..], Some(out));
         && (Display(e).Ok? ==> v == Panicked(AssertionFailed(Display(e).value)))
         && (Display(e).Err? ==> v == Panicked(InvalidUtf8(Display(e).error)))
  {
    var out := spawn(Command(tokens[0], tokens[1..], env)).output;
    var e := Execution(tokens[0], tokens[1..], Some(out));
    BlocksFailIff(e);
    assert [tokens[0]] + tokens[1..] == tokens;
  }

  /** Once the status is success nothing is formatted, so the launch returns
      normally whatever bytes the process wrote, UTF-8 or not. */
  lemma SuccessIgnoresOutput(tokens: seq<string>, env: seq<Binding>, spawn: Spawner)
    requires tokens != [] && spawn(Command(tokens[0], tokens[1..], env)).Spawned?
    requires spawn(Command(tokens[0], tokens[1..], env)).output.status.success
    ensures Outcome(tokens, env, spawn).verdict == Returned
  {
  }

  /** A process that did not succeed and wrote text on both streams yields
      the full diagnostic: command line, status, stdout text, stderr text. */
  lemma FullDiagnostic(tokens: seq<string>, env: seq<Binding>, spawn: Spawner,
                       status: string, out: string, err: string)
    requires tokens != [] && out != [] && err != []
    requires spawn(Command(tokens[0], tokens[1..], env))
      == Spawned(Output(ExitStatus(false, status), Encode(out), Encode(err)))
    ensures Outcome(tokens, env, spawn).verdict
      == Panicked(AssertionFailed(
           Magenta + Join(tokens) + Reset + ("\n" + status)
           + ("\n" + Green + out + Reset) + ("\n" + Red + err + Reset)))
  {
    var e := Execution(tokens[0], tokens[1..], Some(Output(ExitStatus(false, status), Encode(out), Encode(err))));
    FullBlocks(e, tokens, status, out, err);
    RenderFour(CommandLine(tokens), StatusLine(status), StdoutBlock(out), StderrBlock(err));
  }

  /** The pieces of that diagnostic. */
  lemma FullBlocks(e: Execution, tokens: seq<string>, status: string, out: string, err: string)
    requires tokens != [] && out != [] && err != []
    requires e == Execution(tokens[0], tokens[1..], Some(Output(ExitStatus(false, status), Encode(out), Encode(err))))
    ensures Blocks(e) == Ok([CommandLine(tokens), StatusLine(status), StdoutBlock(out), StderrBlock(err)])
  {
    DecodeEncode(out);
    DecodeEncode(err);
    assert [tokens[0]] + tokens[1..] == tokens;
    assert Encode(out) != [] && Encode(err) != [];
    assert OutputPiece(Encode(out), Stdout) == Ok([StdoutBlock(out)]);
    assert OutputPiece(Encode(err), Stderr) == Ok([StderrBlock(err)]);
    assert Blocks(e) == Ok([CommandLine(tokens)] + [StatusLine(status)] + [StdoutBlock(out)] + [StderrBlock(err)]);
    assert [CommandLine(tokens)] + [StatusLine(status)] + [StdoutBlock(out)] + [StderrBlock(err)]
      == [CommandLine(tokens), StatusLine(status), StdoutBlock(out), StderrBlock(err)];
  }
}
