/** The diagnostic text of a launch: `impl fmt::Display for Execution` in
    src/lib.rs. It is written piece by piece: the command line, then, when
    the process has finished, its status, stdout and stderr, each only
    under its own condition. */
module Diagnostic {
  import opened Wrappers
  import opened Utf8

  /** ANSI colour sequences that wrap the command line and the outputs. */
  const Magenta: string := "\U{1b}[95m"
  const Green: string := "\U{1b}[92m"
  const Red: string := "\U{1b}[91m"
  const Reset: string := "\U{1b}[0m"

  /** Exit status of a finished process. Its text is the platform's own
      rendering of the status and is taken as given. */
  datatype ExitStatus = ExitStatus(success: bool, text: string)

  /** What a finished process left behind: `std::process::Output`. */
  datatype Output = Output(status: ExitStatus, stdout: seq<byte>, stderr: seq<byte>)

  /** The record `Execution` builds: the command, its arguments and, once the
      process has run, its output. */
  datatype Execution = Execution(cmd: string, args: seq<string>, result: Option<Output>)

  /** The captured stream whose bytes could not be decoded. */
  datatype Stream = Stdout | Stderr

  /** One piece of the diagnostic, as one `write!` call emits it. */
  datatype Block =
    | CommandLine(words: seq<string>)
    | StatusLine(text: string)
    | StdoutBlock(text: string)
    | StderrBlock(text: string)

  /** Position of a piece in the diagnostic's fixed order. */
  function Rank(b: Block): nat
  {
    match b
    case CommandLine(_) => 0
    case StatusLine(_) => 1
    case StdoutBlock(_) => 2
    case StderrBlock(_) => 3
  }

  /** `words.join(" ")`: the words separated by single spaces. It begins
      with the first word, and two or more words always leave a space. */
  function Join(words: seq<string>): (r: string)
    ensures words != [] ==> words[0] <= r
    ensures |words| >= 2 ==> ' ' in r
  {
    if words == [] then ""
    else if |words| == 1 then words[0]
    else words[0] + " " + Join(words[1..])
  }

  /** Cuts a text at every space; the reference reading of `Join`. */
  function SplitOnSpace(s: string): (r: seq<string>)
    ensures |r| >= 1
  {
    if s == [] then [""]
    else
      var rest := SplitOnSpace(s[1..]);
      if s[0] == ' ' then [""] + rest
      else [[s[0]] + rest[0]] + rest[1..]
  }

  /** The text of one piece. */
  function Render(b: Block): string
  {
    match b
    case CommandLine(words) => Magenta + Join(words) + Reset
    case StatusLine(text) => "\n" + text
    case StdoutBlock(text) => "\n" + Green + text + Reset
    case StderrBlock(text) => "\n" + Red + text + Reset
  }

  /** The text of a sequence of pieces, in order. */
  function RenderAll(bs: seq<Block>): string
  {
    if bs == [] then "" else RenderAll(bs[..|bs| - 1]) + Render(bs[|bs| - 1])
  }

  /** The status line, written only when the status is not success. */
  function StatusPiece(status: ExitStatus): seq<Block>
  {
    if status.success then [] else [StatusLine(status.text)]
  }

  /** The block of one captured stream: nothing when it is empty, its
      decoded text when it is UTF-8, and otherwise the failing stream. */
  function OutputPiece(bytes: seq<byte>, stream: Stream): Result<seq<Block>, Stream>
  {
    if bytes == [] then Ok([])
    else match Decode(bytes)
      case None => Err(stream)
      case Some(text) => Ok([OutputBlock(stream, text)])
  }

  /** The block that shows the text of a stream. */
  function OutputBlock(stream: Stream, text: string): Block
  {
    match stream
    case Stdout => StdoutBlock(text)
    case Stderr => StderrBlock(text)
  }

  /** The pieces the formatter writes, or the stream whose non-empty bytes
      are not UTF-8 (the `from_utf8(..).unwrap()` that panics). Stdout is
      decoded before stderr. A written diagnostic opens with the command
      line; its pieces come in the order command, status, stdout, stderr,
      each at most once; with no result the command line is all there is. */
  function Blocks(e: Execution): (r: Result<seq<Block>, Stream>)
    ensures e.result.None? ==> r == Ok([CommandLine([e.cmd] + e.args)])
    ensures r.Ok? ==> r.value != [] && r.value[0] == CommandLine([e.cmd] + e.args)
    ensures r.Ok? ==> forall i, j :: 0 <= i < j < |r.value| ==> Rank(r.value[i]) < Rank(r.value[j])
  {
    var head := [CommandLine([e.cmd] + e.args)];
    match e.result
    case None => Ok(head)
    case Some(out) =>
      match OutputPiece(out.stdout, Stdout)
      case Err(s) => Err(s)
      case Ok(o) =>
        match OutputPiece(out.stderr, Stderr)
        case Err(s) => Err(s)
        case Ok(r) => Ok(head + StatusPiece(out.status) + o + r)
  }

  /** `format!("{}", e)`: the diagnostic, or the stream that made it panic.
      A written diagnostic always begins with the coloured command line, and
      is nothing more than that while the process has no result. */
  function Display(e: Execution): (r: Result<string, Stream>)
    ensures r.Ok? ==> Magenta + Join([e.cmd] + e.args) + Reset <= r.value
    ensures e.result.None? ==> r == Ok(Magenta + Join([e.cmd] + e.args) + Reset)
    ensures r.Err? <==> Blocks(e).Err?
  {
    match Blocks(e)
    case Ok(bs) =>
      RenderAllStartsWithFirst(bs);
      assert |bs| == 1 ==> bs[..|bs| - 1] == [] && "" + Render(bs[0]) == Render(bs[0]);
      Ok(RenderAll(bs))
    case Err(s) => Err(s)
  }

  /** The formatter as the source writes it: collect the command and its
      arguments into one list, then append each piece under its condition. */
  method Fmt(e: Execution) returns (r: Result<string, Stream>)
    ensures r == Display(e)
  {
    var words := [e.cmd];
    for i := 0 to |e.args|
      invariant words == [e.cmd] + e.args[..i]
    {
      words := words + [e.args[i]];
    }
    assert e.args[..|e.args|] == e.args;
    var piece := CommandLine(words);
    var f := Render(piece);
    ghost var written := [piece];
    RenderAllSnoc([], piece);
    assert [] + [piece] == written;
    assert f == RenderAll(written);
    if e.result.Some? {
      var out := e.result.value;
      if !out.status.success {
        piece := StatusLine(out.status.text);
        RenderAllSnoc(written, piece);
        f, written := f + Render(piece), written + [piece];
        assert f == RenderAll(written);
      }
      ghost var head := written;
      assert head == [CommandLine([e.cmd] + e.args)] + StatusPiece(out.status);
      ghost var o: seq<Block> := [];
      if out.stdout != [] {
        var text := Decode(out.stdout);
        if text.None? {
          return Err(Stdout);
        }
        piece := StdoutBlock(text.value);
        RenderAllSnoc(written, piece);
        f, written, o := f + Render(piece), written + [piece], [piece];
        assert f == RenderAll(written);
      }
      assert OutputPiece(out.stdout, Stdout) == Ok(o);
      ghost var r: seq<Block> := [];
      if out.stderr != [] {
        var text := Decode(out.stderr);
        if text.None? {
          return Err(Stderr);
        }
        piece := StderrBlock(text.value);
        RenderAllSnoc(written, piece);
        f, written, r := f + Render(piece), written + [piece], [piece];
        assert f == RenderAll(written);
      }
      assert OutputPiece(out.stderr, Stderr) == Ok(r);
      assert written == head + o + r;
    }
    assert Blocks(e) == Ok(written) && f == RenderAll(written);
    r := Ok(f);
  }

  /** Appending a piece appends its text. */
  lemma RenderAllSnoc(bs: seq<Block>, b: Block)
    ensures RenderAll(bs + [b]) == RenderAll(bs) + Render(b)
  {
    assert (bs + [b])[..|bs|] == bs;
  }

  /** Cutting a space-free word followed by more text at its spaces keeps
      the word at the front of the first field. */
  lemma {:induction false} SplitAfterWord(w: string, t: string)
    requires ' ' !in w
    ensures SplitOnSpace(w + t) == [w + SplitOnSpace(t)[0]] + SplitOnSpace(t)[1..]
  {
    if w != [] {
      assert (w + t)[1..] == w[1..] + t;
      assert w[0] in w;
      SplitAfterWord(w[1..], t);
      assert [w[0]] + (w[1..] + SplitOnSpace(t)[0]) == w + SplitOnSpace(t)[0];
    } else {
      assert w + t == t;
      assert w + SplitOnSpace(t)[0] == SplitOnSpace(t)[0];
    }
  }

  /** The command line reads back as its words when no word holds a space. */
  lemma {:induction false} SplitJoin(words: seq<string>)
    requires words != []
    requires forall i :: 0 <= i < |words| ==> ' ' !in words[i]
    ensures SplitOnSpace(Join(words)) == words
  {
    var w := words[0];
    if |words| == 1 {
      SplitAfterWord(w, "");
      assert w + "" == w;
    } else {
      var rest := Join(words[1..]);
      SplitJoin(words[1..]);
      assert w + " " + rest == w + (" " + rest);
      assert (" " + rest)[1..] == rest;
      SplitAfterWord(w, " " + rest);
      assert w + "" == w;
      assert [w] + words[1..] == words;
    }
  }

  /** Without that condition the command line is ambiguous: one word with a
      space in it and two words print alike. */
  lemma JoinAmbiguous()
    ensures Join(["a b"]) == Join(["a", "b"])
  {
  }

  /** The text of four pieces is their texts one after the other. */
  lemma RenderFour(b0: Block, b1: Block, b2: Block, b3: Block)
    ensures RenderAll([b0, b1, b2, b3]) == Render(b0) + Render(b1) + Render(b2) + Render(b3)
  {
    var bs := [b0, b1, b2, b3];
    RenderAllSnoc([], b0);
    assert [] + [b0] == bs[..1];
    RenderAllSnoc(bs[..1], b1);
    assert bs[..1] + [b1] == bs[..2];
    RenderAllSnoc(bs[..2], b2);
    assert bs[..2] + [b2] == bs[..3];
    RenderAllSnoc(bs[..3], b3);
    assert bs[..3] + [b3] == bs;
    assert "" + Render(b0) == Render(b0);
  }

  /** The text of a non-empty sequence of pieces begins with its first piece. */
  lemma {:induction false} RenderAllStartsWithFirst(bs: seq<Block>)
    requires bs != []
    ensures Render(bs[0]) <= RenderAll(bs)
  {
    if |bs| > 1 {
      var init := bs[..|bs| - 1];
      RenderAllStartsWithFirst(init);
      assert init[0] == bs[0];
    }
  }

  /** The status line is written exactly when the status is not success. */
  lemma StatusLineIff(e: Execution, t: string)
    requires Blocks(e).Ok?
    ensures StatusLine(t) in Blocks(e).value <==>
      e.result.Some? && !e.result.value.status.success && t == e.result.value.status.text
  {
  }

  /** A stream's piece holds a block exactly when the stream is non-empty,
      and then the text whose UTF-8 encoding the stream's bytes are. */
  lemma OutputPieceIff(bytes: seq<byte>, stream: Stream, t: string)
    requires OutputPiece(bytes, stream).Ok?
    ensures OutputBlock(stream, t) in OutputPiece(bytes, stream).value <==>
      bytes != [] && Encode(t) == bytes
  {
    if bytes != [] {
      DecodeSucceedsIff(bytes);
      if Encode(t) == bytes {
        DecodeEncode(t);
      }
    }
  }

  /** The stdout block is written exactly when stdout is non-empty, and it
      holds the text whose UTF-8 encoding stdout is. */
  lemma StdoutBlockIff(e: Execution, t: string)
    requires Blocks(e).Ok?
    ensures StdoutBlock(t) in Blocks(e).value <==>
      e.result.Some? && e.result.value.stdout != [] && Encode(t) == e.result.value.stdout
  {
    if e.result.Some? {
      OutputPieceIff(e.result.value.stdout, Stdout, t);
    }
  }

  /** The stderr block is written exactly when stderr is non-empty, and it
      holds the text whose UTF-8 encoding stderr is. */
  lemma StderrBlockIff(e: Execution, t: string)
    requires Blocks(e).Ok?
    ensures StderrBlock(t) in Blocks(e).value <==>
      e.result.Some? && e.result.value.stderr != [] && Encode(t) == e.result.value.stderr
  {
    if e.result.Some? {
      OutputPieceIff(e.result.value.stderr, Stderr, t);
    }
  }

  /** Formatting fails exactly when a non-empty stream is not UTF-8, and it
      names stdout when both are bad, since stdout is decoded first. */
  lemma BlocksFailIff(e: Execution)
    ensures Blocks(e) == Err(Stdout) <==>
      e.result.Some? && e.result.value.stdout != [] && !IsUtf8(e.result.value.stdout)
    ensures Blocks(e) == Err(Stderr) <==>
      e.result.Some? && (e.result.value.stdout == [] || IsUtf8(e.result.value.stdout))
      && e.result.value.stderr != [] && !IsUtf8(e.result.value.stderr)
  {
    if e.result.Some? {
      DecodeSucceedsIff(e.result.value.stdout);
      DecodeSucceedsIff(e.result.value.stderr);
    }
  }
}
