/** `Executor` in src/lib.rs: a holder of environment bindings that launches
    processes with them. It is never changed after construction, so it is a
    value here. */
module Environment {
  import opened Wrappers
  import opened Launcher

  datatype Executor = Executor(env: seq<Binding>)

  /** `Executor::new`: the bindings are kept as given, in order, duplicates
      included. */
  function New(env: seq<Binding>): (e: Executor)
    ensures e.env == env
  {
    Executor(env)
  }

  /** `Executor::run`: launch with a copy of the holder's bindings. */
  method Run(e: Executor, tokens: seq<string>, spawn: Spawner) returns (r: Launch)
    ensures r == Outcome(tokens, e.env, spawn)
  {
    r := Launcher.Run(tokens, e.env, spawn);
  }

  /** Every launch from a holder hands the operating system the bindings the
      holder was built with, unchanged, whatever other launches it has made;
      an empty token sequence hands it nothing and panics with
      "Missing command", whatever the bindings. */
  lemma LaunchesUseBindingsVerbatim(bindings: seq<Binding>, tokens: seq<string>, spawn: Spawner)
    ensures var r := Outcome(tokens, New(bindings).env, spawn);
      && (tokens != [] ==> r.spawned == Some(Command(tokens[0], tokens[1..], bindings)))
      && (tokens == [] ==> r == Launch(None, Panicked(MissingCommand)))
  {
  }
}
