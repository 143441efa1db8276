/** The line framing of the Unison file-monitor protocol: a command word and
    percent-encoded arguments separated by single spaces, one command per
    line. Sending appends lines to the monitor's output; receiving reads one
    line from the remaining input. */
module SendRecv {
  import opened Results
  import opened Strings
  import opened Escaping
  import opened MonitorState

  // ---------------------------------------------------------------------
  // Sending
  // ---------------------------------------------------------------------

  /** Every argument percent-encoded, in order. */
  function EscapeAll(args: seq<string>): (r: seq<string>)
    ensures |r| == |args|
    ensures forall i | 0 <= i < |r| :: r[i] == PathEscape(args[i])
    decreases |args|
  {
    if |args| == 0 then [] else [PathEscape(args[0])] + EscapeAll(args[1..])
  }

  /** The line `sendCmd` writes: the command, then each argument escaped,
      joined by single spaces and ended by a newline. */
  function FormatCmd(cmd: string, args: seq<string>): (line: string)
    ensures |line| > 0 && line[|line| - 1] == '\n'
  {
    JoinWith([cmd] + EscapeAll(args), ' ') + "\n"
  }

  /** `sendCmd`: one more line of output, nothing else changes. */
  function SendCmd(m: Monitor, cmd: string, args: seq<string>): (m': Monitor)
    ensures |m'.out| == |m.out| + 1 && m'.out[..|m.out|] == m.out
    ensures m'.out[|m.out|] == FormatCmd(cmd, args)
    ensures m' == m.(out := m'.out)
  {
    m.(out := m.out + [FormatCmd(cmd, args)])
  }

  /** `SendErr`: one ERROR line whose single argument is the message, and the
      monitor shuts down. The caller's `ShutdownChannel` receive then ends the
      process, so nothing after this transition is modelled. */
  function SendErr(m: Monitor, msg: string): (r: Monitor)
    ensures r.shuttingDown
    ensures r.out == m.out + [FormatCmd("ERROR", [msg])]
    ensures r == m.(out := r.out, shuttingDown := true)
    ensures HasPrefix(r.out[|m.out|], "ERROR ")
  {
    assert EscapeAll([msg]) == [PathEscape(msg)];
    assert ["ERROR"] + [PathEscape(msg)] == ["ERROR", PathEscape(msg)];
    assert ["ERROR", PathEscape(msg)][1..] == [PathEscape(msg)];
    assert JoinWith(["ERROR", PathEscape(msg)], ' ') == "ERROR " + PathEscape(msg);
    assert FormatCmd("ERROR", [msg]) == "ERROR " + PathEscape(msg) + "\n";
    SendCmd(m, "ERROR", [msg]).(shuttingDown := true)
  }

  /** `sendVersion(v)`. */
  function SendVersion(m: Monitor, v: int): Monitor {
    SendCmd(m, "VERSION", [Itoa(v)])
  }

  function SendOk(m: Monitor): Monitor {
    SendCmd(m, "OK", [])
  }

  function SendDone(m: Monitor): Monitor {
    SendCmd(m, "DONE", [])
  }

  /** `sendOk` writes exactly `OK`. */
  lemma OkLine(m: Monitor)
    ensures SendOk(m).out == m.out + ["OK\n"]
  {
    assert EscapeAll([]) == [];
    assert ["OK"] + [] == ["OK"];
    assert JoinWith(["OK"], ' ') == "OK";
    assert FormatCmd("OK", []) == "OK\n";
  }

  /** `sendDone` writes exactly `DONE`. */
  lemma DoneLine(m: Monitor)
    ensures SendDone(m).out == m.out + ["DONE\n"]
  {
    assert EscapeAll([]) == [];
    assert ["DONE"] + [] == ["DONE"];
    assert JoinWith(["DONE"], ' ') == "DONE";
    assert FormatCmd("DONE", []) == "DONE\n";
  }

  /** `sendVersion(1)` writes exactly `VERSION 1`. */
  lemma VersionLine(m: Monitor)
    ensures SendVersion(m, 1).out == m.out + ["VERSION 1\n"]
  {
    assert Itoa(1) == "1";
    assert PathEscape("1") == "1" by { assert KeptInSegment('1'); }
    assert EscapeAll(["1"]) == ["1"];
    assert ["VERSION"] + ["1"] == ["VERSION", "1"];
    assert JoinWith(["VERSION", "1"], ' ') == "VERSION 1";
    assert FormatCmd("VERSION", ["1"]) == "VERSION 1\n";
  }

  /** A sent line never contains a newline except the one that ends it, as
      long as the command word has no white space. */
  lemma FormatCmdShape(cmd: string, args: seq<string>)
    requires NoSpace(cmd)
    ensures var line := FormatCmd(cmd, args);
      |line| > 0 && line[|line| - 1] == '\n' && '\n' !in line[..|line| - 1]
  {
    var esc := EscapeAll(args);
    JoinNoSpace([cmd] + esc);
    assert (JoinWith([cmd] + esc, ' ') + "\n")[..|JoinWith([cmd] + esc, ' ')|] == JoinWith([cmd] + esc, ' ');
  }

  /** Joining pieces without white space by spaces leaves only the joining
      spaces. */
  lemma {:induction false} JoinNoSpace(parts: seq<string>)
    requires forall i | 0 <= i < |parts| :: NoSpace(parts[i])
    ensures forall i | 0 <= i < |JoinWith(parts, ' ')| ::
      JoinWith(parts, ' ')[i] != '\n' && (JoinWith(parts, ' ')[i] == ' ' || !IsSpace(JoinWith(parts, ' ')[i]))
    decreases |parts|
  {
    if |parts| > 1 {
      JoinNoSpace(parts[1..]);
      var s := JoinWith(parts, ' ');
      var rest := JoinWith(parts[1..], ' ');
      assert s == parts[0] + [' '] + rest;
      forall i | 0 <= i < |s|
        ensures s[i] != '\n' && (s[i] == ' ' || !IsSpace(s[i]))
      {
        if i < |parts[0]| {
          assert s[i] == parts[0][i];
        } else if i > |parts[0]| {
          assert s[i] == rest[i - |parts[0]| - 1];
        }
      }
    }
  }

  // ---------------------------------------------------------------------
  // Receiving
  // ---------------------------------------------------------------------

  /** `reader.ReadString('\n')`: the input up to and including the first
      newline, and what follows it; `None` when no newline is left (Go's
      io.EOF, which also consumes any partial line). */
  function ReadLine(input: string): (r: Option<(string, string)>)
    ensures r.None? <==> '\n' !in input
    ensures r.Some? ==> r.value.0 + r.value.1 == input
    ensures r.Some? ==> |r.value.0| > 0 && r.value.0[|r.value.0| - 1] == '\n'
    ensures r.Some? ==> '\n' !in r.value.0[..|r.value.0| - 1]
    decreases |input|
  {
    if |input| == 0 then None
    else if input[0] == '\n' then Some(("\n", input[1..]))
    else
      match ReadLine(input[1..])
      case None => None
      case Some((line, rest)) =>
        assert input == [input[0]] + input[1..];
        assert ([input[0]] + line)[..|line|] == [input[0]] + line[..|line| - 1];
        Some(([input[0]] + line, rest))
  }

  datatype Command = Command(name: string, args: seq<string>)

  /** Why `receiveCmd` failed. */
  datatype RecvError =
    | ReadFailed
      /** An argument with a bad `%` escape; the offending fragment. */
    | BadArgument(fragment: string)

  /** Every token percent-decoded, stopping at the first bad one. */
  function UnescapeAll(tokens: seq<string>): (r: Result<seq<string>, string>)
    ensures r.Ok? ==> |r.value| == |tokens|
    ensures r.Ok? <==> forall i | 0 <= i < |tokens| :: PathUnescape(tokens[i]).Ok?
    ensures r.Ok? ==> forall i | 0 <= i < |tokens| :: r.value[i] == PathUnescape(tokens[i]).value
    decreases |tokens|
  {
    if |tokens| == 0 then Ok([])
    else
      match PathUnescape(tokens[0])
      case Err(e) => Err(e)
      case Ok(a) =>
        match UnescapeAll(tokens[1..])
        case Err(e) => Err(e)
        case Ok(rest) =>
          assert forall i | 1 <= i < |tokens| :: tokens[i] == tokens[1..][i - 1];
          Ok([a] + rest)
  }

  /** `receiveCmd`: reads one line, trims it, splits it at single spaces; the
      first token is the command and each later token is decoded into an
      argument. Also returns the input left after the line. */
  function ReceiveCmd(input: string): (r: Result<(Command, string), RecvError>)
    ensures r.Ok? ==> |r.value.1| < |input|
    ensures r.Err? && r.error.ReadFailed? <==> '\n' !in input
  {
    match ReadLine(input)
    case None => Err(ReadFailed)
    case Some((line, rest)) =>
      var tokens := Tokens(line);
      match UnescapeAll(tokens[1..])
      case Err(frag) => Err(BadArgument(frag))
      case Ok(args) => Ok((Command(tokens[0], args), rest))
  }

  /** What a read line yields: its first word is the command, every later
      word is decoded into one argument, the read fails exactly when some
      later word does not decode, and the input after the line is left. */
  lemma ReceiveCmdParses(input: string, line: string, rest: string)
    requires ReadLine(input) == Some((line, rest))
    ensures var r := ReceiveCmd(input);
      var t := Tokens(line);
      && (r.Ok? <==> forall i | 1 <= i < |t| :: PathUnescape(t[i]).Ok?)
      && (r.Ok? ==>
            && r.value.0.name == t[0]
            && |r.value.0.args| == |t| - 1
            && (forall i | 0 <= i < |r.value.0.args| :: r.value.0.args[i] == PathUnescape(t[i + 1]).value)
            && r.value.1 == rest)
  {
    UnescapeArguments(Tokens(line));
  }

  /** Decoding every token after the first, counted from the first. */
  lemma UnescapeArguments(t: seq<string>)
    requires |t| >= 1
    ensures UnescapeAll(t[1..]).Ok? <==> forall i | 1 <= i < |t| :: PathUnescape(t[i]).Ok?
    ensures UnescapeAll(t[1..]).Ok? ==>
      && |UnescapeAll(t[1..]).value| == |t| - 1
      && forall i | 0 <= i < |t| - 1 :: UnescapeAll(t[1..]).value[i] == PathUnescape(t[i + 1]).value
  {
    assert forall i | 1 <= i < |t| :: t[i] == t[1..][i - 1];
  }

  /** The words of a line: trimmed, then split at single spaces. */
  function Tokens(line: string): (t: seq<string>)
    ensures |t| >= 1
  {
    Split(TrimSpace(line), ' ')
  }

  /** An empty line is the empty command with no arguments: splitting never
      yields zero tokens, so `receiveCmd`'s `case 0` cannot happen. */
  lemma EmptyLine(rest: string)
    ensures ReceiveCmd("\n" + rest) == Ok((Command("", []), rest))
  {
    assert ReadLine("\n" + rest) == Some(("\n", rest));
    assert TrimLeft("\n") == "";
    assert Split("", ' ') == [""];
  }

  /** A sent line reads back as the command and arguments it was built from,
      when the command word has no white space, and, if there are
      arguments, the command word is not empty and the last argument is not
      empty (otherwise trimming eats an empty token at either end). */
  lemma ReceiveFormatted(cmd: string, args: seq<string>, rest: string)
    requires NoSpace(cmd)
    requires |args| > 0 ==> |cmd| > 0 && |args[|args| - 1]| > 0
    ensures ReceiveCmd(FormatCmd(cmd, args) + rest) == Ok((Command(cmd, args), rest))
  {
    var body := JoinWith([cmd] + EscapeAll(args), ' ');
    FormattedLine(cmd, args, rest);
    SplitFormatted(cmd, args);
    UnescapeFormatted(args);
    assert ([cmd] + EscapeAll(args))[1..] == EscapeAll(args);
  }

  /** Reading and trimming a sent line leaves the joined words. */
  lemma FormattedLine(cmd: string, args: seq<string>, rest: string)
    requires NoSpace(cmd)
    requires |args| > 0 ==> |cmd| > 0 && |args[|args| - 1]| > 0
    ensures var body := JoinWith([cmd] + EscapeAll(args), ' ');
      && ReadLine(FormatCmd(cmd, args) + rest) == Some((body + "\n", rest))
      && TrimSpace(body + "\n") == body
  {
    var parts := [cmd] + EscapeAll(args);
    var body := JoinWith(parts, ' ');
    var line := body + "\n";
    FormatCmdShape(cmd, args);
    assert line[..|line| - 1] == body;
    ReadLineOf(line, rest);
    assert |body| > 0 ==> !IsSpace(body[0]) && !IsSpace(body[|body| - 1]) by {
      if |args| > 0 {
        JoinEnds(parts);
        assert parts[|parts| - 1] == PathEscape(args[|args| - 1]);
      } else {
        assert body == cmd;
      }
    }
    TrimLine(body);
  }

  /** Splitting the joined words at spaces gives the words back. */
  lemma SplitFormatted(cmd: string, args: seq<string>)
    requires NoSpace(cmd)
    ensures Split(JoinWith([cmd] + EscapeAll(args), ' '), ' ') == [cmd] + EscapeAll(args)
  {
    var esc := EscapeAll(args);
    var parts := [cmd] + esc;
    forall i | 0 <= i < |parts| ensures ' ' !in parts[i] {
      if i > 0 {
        assert parts[i] == PathEscape(args[i - 1]);
        NoSpaceHasNoBlank(parts[i]);
      } else {
        NoSpaceHasNoBlank(cmd);
      }
    }
    SplitJoin(parts, ' ');
  }

  /** Decoding the escaped arguments gives the arguments back. */
  lemma UnescapeFormatted(args: seq<string>)
    ensures UnescapeAll(EscapeAll(args)) == Ok(args)
  {
    var esc := EscapeAll(args);
    forall i | 0 <= i < |esc| ensures PathUnescape(esc[i]) == Ok(args[i]) {
      UnescapeEscape(args[i]);
    }
    assert UnescapeAll(esc).value == args;
  }

  lemma NoSpaceHasNoBlank(s: string)
    requires NoSpace(s)
    ensures ' ' !in s && '\n' !in s
  {
  }

  /** The first and last characters of a join come from the first and last
      pieces, when those are not empty. */
  lemma JoinEnds(parts: seq<string>)
    requires |parts| > 0 && |parts[0]| > 0 && |parts[|parts| - 1]| > 0
    ensures var s := JoinWith(parts, ' ');
      |s| > 0 && s[0] == parts[0][0] && s[|s| - 1] == parts[|parts| - 1][|parts[|parts| - 1]| - 1]
  {
    JoinLast(parts);
    if |parts| > 1 {
      assert JoinWith(parts, ' ') == parts[0] + [' '] + JoinWith(parts[1..], ' ');
    }
  }

  /** The last character of a join of at least two pieces with a non-empty
      last piece. */
  lemma {:induction false} JoinLast(parts: seq<string>)
    requires |parts| > 0 && |parts[|parts| - 1]| > 0
    ensures var s := JoinWith(parts, ' ');
      |s| > 0 && s[|s| - 1] == parts[|parts| - 1][|parts[|parts| - 1]| - 1]
    decreases |parts|
  {
    if |parts| > 1 {
      JoinLast(parts[1..]);
      assert JoinWith(parts, ' ') == parts[0] + [' '] + JoinWith(parts[1..], ' ');
    }
  }

  /** Reading a line with one final newline returns that line. */
  lemma {:induction false} ReadLineOf(line: string, rest: string)
    requires |line| > 0 && line[|line| - 1] == '\n' && '\n' !in line[..|line| - 1]
    ensures ReadLine(line + rest) == Some((line, rest))
    decreases |line|
  {
    var s := line + rest;
    if |line| > 1 {
      assert line[0] in line[..|line| - 1];
      assert s[1..] == line[1..] + rest;
      assert line[1..][..|line| - 2] == line[..|line| - 1][1..];
      assert '\n' !in line[1..][..|line| - 2];
      ReadLineOf(line[1..], rest);
      assert [line[0]] + line[1..] == line;
    }
  }

  // ---------------------------------------------------------------------
  // Error messages
  // ---------------------------------------------------------------------

  /** One byte as `strconv.Quote` writes it inside the quotes. Bytes from
      0x80 up are written as `\x` escapes, which is what Quote does for a
      byte that does not start a valid UTF-8 sequence. */
  function QuoteChar(c: char): string {
    if c == '"' then "\\\""
    else if c == '\\' then "\\\\"
    else if c == '\U{7}' then "\\a"
    else if c == '\U{8}' then "\\b"
    else if c == '\U{C}' then "\\f"
    else if c == '\n' then "\\n"
    else if c == '\r' then "\\r"
    else if c == '\t' then "\\t"
    else if c == '\U{B}' then "\\v"
    else if c as int < 0x20 || 0x7F <= c as int < 0x100 then
      "\\x" + [LowerHex[c as int / 16], LowerHex[c as int % 16]]
    else [c]
  }

  const LowerHex := "0123456789abcdef"

  /** `strconv.Quote` on a string of bytes. */
  function Quote(s: string): string {
    "\"" + QuoteAll(s) + "\""
  }

  function QuoteAll(s: string): string
    decreases |s|
  {
    if |s| == 0 then "" else QuoteChar(s[0]) + QuoteAll(s[1..])
  }

  /** The text of the error `receiveCmd` returns. */
  function RecvErrorText(e: RecvError): string {
    match e
    case ReadFailed => "Unable to read stdin: EOF"
    case BadArgument(frag) => "Unable to decode command argument: invalid URL escape " + Quote(frag)
  }

  /** `%v` of a slice of strings: the elements between brackets, separated
      by spaces. */
  function FormatList(xs: seq<string>): string {
    "[" + JoinWith(xs, ' ') + "]"
  }

  /** `checkSingleArgument`: fatal unless exactly one argument was given. */
  function CheckSingleArgument(m: Monitor, cmd: string, args: seq<string>): (r: Monitor)
    ensures r == m <==> |args| == 1
    ensures |args| != 1 ==> r.shuttingDown && |r.out| == |m.out| + 1
  {
    if |args| == 1 then m
    else SendErr(m, "Incorrect number of arguments for " + cmd + ": " + FormatList(args))
  }

  /** The ERROR line reads back as one ERROR command carrying the whole
      message, spaces included. */
  lemma ErrorReadsBack(m: Monitor, msg: string, rest: string)
    requires msg != ""
    ensures var line := SendErr(m, msg).out[|m.out|];
      ReceiveCmd(line + rest) == Ok((Command("ERROR", [msg]), rest))
  {
    ReceiveFormatted("ERROR", [msg], rest);
  }
}
