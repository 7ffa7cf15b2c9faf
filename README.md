# test_process_executor, modelled in Dafny

`test_process_executor` is a small Rust library for tests. It launches an external
process with a fixed set of environment variables and panics unless the process
starts and exits successfully. An empty token sequence panics with the error
"Missing command", and a process that cannot be started panics with "Failed to
execute command" and the OS error; neither formats anything. Only a process
that ran and did not succeed panics with the coloured diagnostic. This project
models the bookkeeping around that launch in `src/lib.rs` and proves properties
about it:

- `Environment` models `Executor`. It holds the environment bindings and hands
  each launch an unchanged copy. The Rust struct is never mutated after
  `Executor::new`, so here it is a value.
- `Launcher` models `Execution::run`. The token sequence is split into a command
  and its arguments. The operating system is asked to start the process. The
  call ends in one of two ways: a normal return, or a `Panicked` verdict. Each
  `unwrap`, `expect` and `assert!` that can panic in the source has its own
  `Panic` tag: `MissingCommand`, `FailedToExecute`, `AssertionFailed` (carrying
  the diagnostic) and `InvalidUtf8` (naming the stream). The operating system's
  process creation is a `Spawner` parameter, a function from the `Command`
  handed to it (program, arguments, bindings) to either the finished process's
  `Output` or an OS error. The launch result records that `Command`, so the
  model can state what the child process receives.
- `Diagnostic` models `impl fmt::Display for Execution`. The source writes the
  diagnostic in pieces, one `write!` call each, and `Block` is one such piece:
  - the command line in magenta;
  - the status line, only when the status is not success;
  - stdout in green, only when stdout is non-empty;
  - stderr in red, only when stderr is non-empty.

  `Fmt` is the formatter in the source's own shape: a loop collects the
  command and its arguments, then each piece is appended under its condition.
  `Fmt` is proved equal to the specification function `Display`.
- `Utf8` models `std::str::from_utf8`. It accepts exactly the well-formed
  sequences of the byte table in section 4 of RFC 3629. The decoder is proved
  to invert the encoder of section 3 in both directions. So formatting fails
  exactly when a non-empty stream is not the UTF-8 encoding of some text.

Code and documentation disagree in one place. The doc comment at
`src/lib.rs:45` says a run panics when the process writes invalid UTF-8. In
the code, the diagnostic is formatted only inside the failing `assert!`, which
is evaluated only when the status is not success. So a successful process
with invalid UTF-8 output returns normally. The model follows the code
(`Launcher.SuccessIgnoresOutput`).

## Model

| member | source | states |
|---|---|---|
| `Environment.New` | src/lib.rs:26-28 | the holder keeps the bindings exactly as given: same order, duplicates kept, nothing validated |
| `Environment.Run` | src/lib.rs:46-52 | a launch from a holder behaves as a launch of the same tokens with the holder's own bindings |
| `Environment.LaunchesUseBindingsVerbatim` | src/lib.rs:41-42 | a holder built from some bindings hands the OS exactly those bindings on every launch, with the first token as program and the rest as arguments; an empty token sequence creates no process and panics with "Missing command", whatever the bindings |
| `Launcher.Split` | src/lib.rs:69-76 | splitting fails exactly on an empty sequence; otherwise the command followed by the arguments gives back the original tokens in order |
| `Launcher.Outcome` | src/lib.rs:62-90 | a process is created exactly when there is at least one token, with those tokens and the given bindings; an empty sequence panics with "Missing command"; the call returns normally exactly when the process started and its status is success |
| `Launcher.Run` | src/lib.rs:69-89 | the step-by-step launch (record built without a result, process started, result stored, record formatted only on failure) ends exactly as `Outcome` says |
| `Launcher.SpawnErrorFails` | src/lib.rs:79-85 | a process that cannot be started ends the launch with "Failed to execute command" and the OS error |
| `Launcher.NonSuccessCarriesDiagnostic` | src/lib.rs:86-89 | a process that ran and did not succeed ends the launch with exactly the diagnostic of its `Execution` record (command, arguments, output), which opens with the coloured command line of the given tokens; when that record cannot be written the launch ends on the stream that is not UTF-8, stdout when both are bad |
| `Launcher.SuccessIgnoresOutput` | src/lib.rs:86-89 | with a success status the launch returns normally, whatever the process wrote, UTF-8 or not |
| `Launcher.FullDiagnostic` | src/lib.rs:104-114 | a failing process that wrote text on both streams yields command line, status line, green stdout text and red stderr text, in that order and nothing else |
| `Diagnostic.Join` | src/lib.rs:104 | `cmd.join(" ")`: the text begins with the first word, and two or more words always leave a space; `Diagnostic.SplitJoin` is its inverse |
| `Diagnostic.Blocks` | src/lib.rs:95-114 | the pieces the formatter writes open with the command line, come in the order command, status, stdout, stderr, each at most once, and are the command line alone while there is no result |
| `Diagnostic.Display` | src/lib.rs:93-117 | `format!("{}", exec)`: a written diagnostic always begins with the command line wrapped in `ESC[95m` and `ESC[0m`, is exactly that while there is no result, and fails exactly when the pieces cannot be written |
| `Diagnostic.Fmt` | src/lib.rs:94-117 | the formatter that collects the words in a loop and appends piece by piece produces exactly the specified diagnostic, or fails on the same stream |
| `Diagnostic.SplitJoin` | src/lib.rs:104 | the command line is the tokens joined by single spaces: cutting it at the spaces gives the tokens back when none of them holds a space |
| `Diagnostic.JoinAmbiguous` | src/lib.rs:104 | without that condition the command line is ambiguous: one token "a b" prints like the two tokens "a" and "b" |
| `Diagnostic.StatusLineIff` | src/lib.rs:106-108 | the status line is present exactly when the status is not success, and it holds the status text |
| `Diagnostic.OutputPieceIff` | src/lib.rs:109-114 | a stream contributes a block exactly when it is non-empty, and the block holds the text whose UTF-8 encoding the bytes are |
| `Diagnostic.StdoutBlockIff` | src/lib.rs:109-111 | the green stdout block is present exactly when stdout is non-empty, holding the decoded text |
| `Diagnostic.StderrBlockIff` | src/lib.rs:112-114 | the red stderr block is present exactly when stderr is non-empty, holding the decoded text |
| `Diagnostic.BlocksFailIff` | src/lib.rs:109-114 | formatting fails on stdout exactly when stdout is non-empty and not UTF-8, and on stderr exactly when stdout is fine and stderr is non-empty and not UTF-8; empty output never fails |
| `Utf8.EncodeChar` | src/lib.rs:110 | a scalar value encodes to one to four bytes, every byte after the first a continuation byte |
| `Utf8.DecodeFirst` | src/lib.rs:110 | the byte table of section 4 of RFC 3629: an accepted scalar takes between one byte and what is left of the input |
| `Utf8.Decode` | src/lib.rs:110-113 | `from_utf8`: a decoded text takes between one and four bytes per scalar; `Utf8.DecodeSucceedsIff` and the two round trips say which inputs it accepts and what it returns |
| `Utf8.DecodeFirstOfEncodeChar` | src/lib.rs:110 | decoding the front of an encoded scalar gives the scalar back and consumes exactly its encoding |
| `Utf8.EncodeCharOfDecodeFirst` | src/lib.rs:110 | the bytes a scalar is decoded from are exactly that scalar's encoding, so overlong forms and surrogates are rejected |
| `Utf8.DecodeEncode` | src/lib.rs:110 | every text survives encoding followed by `from_utf8` |
| `Utf8.EncodeDecode` | src/lib.rs:113 | bytes that `from_utf8` accepts are the encoding of the text it returns |
| `Utf8.DecodeSucceedsIff` | src/lib.rs:110-113 | `from_utf8` succeeds exactly on byte sequences that encode some text |

## Left out

- Process creation, waiting and output capture (`Command::output`, src/lib.rs:80-84) are operating-system I/O. They are the `Spawner` parameter, a function, so the model answers the same command the same way every time. It says nothing about what a real process does with its environment.
- The operating system's environment merge (inherited variables plus the bindings, duplicate names) belongs to the spawn primitive. The model only states which bindings are handed to it.
- `OsStr::to_string_lossy` (src/lib.rs:102) and the generic `AsRef<OsStr>` bounds are not modelled. Tokens, names and values are Dafny strings.
- The platform's text for an exit status (src/lib.rs:107) is an opaque string in `ExitStatus`.
- A panic's exact message text (the `unwrap` and `expect` wrappers around "Missing command", "Failed to execute command" and the `Utf8Error`) is not modelled. It is a `Panic` tag with its payload.
- Errors from the formatter's own writes (the `?` after each `write!`) are not modelled. Formatting into a `String` does not fail.
- The `tests` module (src/lib.rs:120-135) needs `/bin/bash` at run time. Its failing case is the non-success path that `Launcher.Outcome` covers.
- Panics unwinding through the caller, and running launches from several threads, are not modelled. Each launch is one value-level call.
