/**
 * The config-puller application object: the command list the user builds,
 * the extraction guard, the progress figure, and the worker that sends the
 * bootstrap commands, captures every user command's output and saves the
 * joined result as the contents of config.txt.
 */
module ConfigPuller {

  import opened Protocol
  import opened SerialPort

  /**
   * The progress figure after `complete` of `total` commands, as a
   * percentage: within 0 to 100, and exactly 100 once every command is done.
   */
  function Percent(complete: nat, total: nat): (p: real)
    requires total > 0
    ensures complete <= total ==> 0.0 <= p <= 100.0
    ensures p == 100.0 <==> complete == total
  {
    (complete as real) / (total as real) * 100.0
  }

  class App {
    /** The user commands, in the order they were added. */
    var commands: seq<string>
    /** Percentage of the user commands captured in the current run. */
    var progress: real
    /** Whether an extraction run has been started and not finished. */
    var extracting: bool
    /** The contents of config.txt as written by the last finished run, if any. */
    var config: Option<string>

    constructor ()
      ensures commands == [] && progress == 0.0 && !extracting && config == None
    {
      commands := [];
      progress := 0.0;
      extracting := false;
      config := None;
    }

    /** Append one command typed by the user; earlier commands are kept as they are. */
    method AddCmd(entry: string)
      modifies this`commands
      ensures commands == old(commands) + [entry]
      ensures |commands| == |old(commands)| + 1 && commands[..|old(commands)|] == old(commands)
    {
      commands := commands + [entry];
    }

    /**
     * Start an extraction unless one is running. The progress is reset in
     * both cases; `started` says whether the caller is to run the worker.
     */
    method Extract() returns (started: bool)
      modifies this`progress, this`extracting
      ensures progress == 0.0
      ensures started <==> !old(extracting)
      ensures extracting
    {
      progress := 0.0;
      if !extracting {
        extracting := true;
        started := true;
      } else {
        started := false;
      }
    }

    /** Send one command, framed as one line. */
    method WriteCmd(port: Port, cmd: string)
      modifies port`sent
      ensures port.sent == old(port.sent) + [Frame(cmd)]
    {
      port.Write(Frame(cmd));
    }

    /**
     * Send `cmd` and capture its output up to the prompt read. Returns None
     * when the pending lines run out without an exact prompt read: from then
     * on every read is a timeout and the capture would wait forever.
     */
    method ReadUntilEnd(port: Port, cmd: string) returns (output: Option<string>)
      modifies port
      ensures port.sent == old(port.sent) + [Frame(cmd)]
      ensures match Protocol.ReadUntilEnd(old(port.pending))
              case Done(text, n) => output == Some(text) && port.pending == old(port.pending)[n..]
              case NotTerminated => output == None && port.pending == []
    {
      WriteCmd(port, cmd);
      ghost var transcript := port.pending;
      ghost var read: nat := 0;
      var buffer := "";
      var line := "";
      while line != Prompt && !port.Exhausted()
        invariant read <= |transcript| && port.pending == transcript[read..]
        invariant port.sent == old(port.sent) + [Frame(cmd)]
        invariant buffer == Accumulate(transcript[..read])
        invariant read == 0 ==> line == ""
        invariant read > 0 ==> line == transcript[read - 1] && Prompt !in transcript[..read - 1]
        decreases |port.pending|
      {
        line := port.ReadLine();
        assert line == transcript[read] && port.pending == transcript[read + 1..];
        if '!' !in line && DropLast(line, TerminatorLength) != "" {
          buffer := buffer + DropLast(line, TerminatorLength) + "\n";
        }
        assert buffer == Accumulate(transcript[..read]) + Contribution(line);
        AccumulateStep(transcript, read);
        assert transcript[..read + 1][..read] == transcript[..read];
        read := read + 1;
      }
      if line != Prompt {
        assert transcript[..read] == transcript;
        ReadUntilEndStops(transcript);
        output := None;
        return;
      }
      TrimAtPrompt(transcript, read - 1);
      output := Some(DropLast(buffer, PromptTrim));
    }

    /**
     * The capture loop of the extraction worker: capture every user command
     * in list order, updating the progress after each one, and return the
     * joined captures. Returns None when a capture never ends, with the
     * progress left where the last finished capture put it.
     */
    method CaptureCommands(port: Port) returns (captured: Option<string>, complete: nat)
      modifies this`progress, port
      ensures match Extraction(commands, old(port.pending))
              case Finished(result, n) =>
                && captured == Some(result)
                && complete == |commands|
                && port.sent == old(port.sent) + Frames(commands)
                && port.pending == old(port.pending)[n..]
                && progress == (if commands == [] then old(progress) else 100.0)
              case Hung(c) =>
                && captured == None
                && complete == c
                && port.sent == old(port.sent) + Frames(commands[..c + 1])
                && port.pending == []
                && progress == (if c == 0 then old(progress) else Percent(c, |commands|))
    {
      var cmds := commands;
      ghost var sent0 := port.sent;
      ghost var input := port.pending;
      ghost var whole := Extraction(cmds, input);
      var total := |cmds|;
      complete := 0;
      var result := "";
      ghost var used: nat := 0;
      assert cmds[..0] == [];
      ResumeStart(cmds, input);
      while complete < total
        invariant complete <= total
        invariant used <= |input| && port.pending == input[used..]
        invariant port.sent == sent0 + Frames(cmds[..complete])
        invariant whole == After(result, complete, used, Extraction(cmds[complete..], port.pending))
        invariant progress == (if complete == 0 then old(progress) else Percent(complete, total))
      {
        ghost var rest := port.pending;
        ghost var reply := Protocol.ReadUntilEnd(rest);
        var output := ReadUntilEnd(port, cmds[complete]);
        FramesPrefixStep(cmds, complete);
        if output.None? {
          ResumeHung(cmds, complete, rest, result, used, whole);
          return None, complete;
        }
        ghost var n := reply.consumed;
        ResumeDone(cmds, complete, rest, result, used, whole, output.value, n);
        result := result + output.value;
        used := used + n;
        complete := complete + 1;
        progress := Percent(complete, total);
      }
      assert cmds[..complete] == cmds;
      ResumeEnd(cmds, port.pending, result, used, whole);
      captured := Some(result);
    }

    /**
     * The extraction worker: write the two bootstrap commands, capture the
     * user commands, then save the joined captures and release the guard.
     * When a capture never ends the worker stops there, with the guard still
     * held and nothing saved. Returns how many commands were captured.
     */
    method RunExtraction(port: Port) returns (complete: nat)
      modifies this`progress, this`extracting, this`config, port
      ensures match Extraction(commands, old(port.pending))
              case Finished(result, n) =>
                && complete == |commands|
                && config == Some(result)
                && !extracting
                && port.sent == old(port.sent) + [Frame(EnableCommand), Frame(NoPagingCommand)] + Frames(commands)
                && port.pending == old(port.pending)[n..]
                && progress == (if commands == [] then old(progress) else 100.0)
              case Hung(c) =>
                && complete == c
                && config == old(config)
                && extracting == old(extracting)
                && port.sent == old(port.sent) + [Frame(EnableCommand), Frame(NoPagingCommand)] + Frames(commands[..c + 1])
                && port.pending == []
                && progress == (if c == 0 then old(progress) else Percent(c, |commands|))
    {
      WriteCmd(port, EnableCommand);
      WriteCmd(port, NoPagingCommand);
      var captured;
      captured, complete := CaptureCommands(port);
      if captured.Some? {
        config := captured;
        extracting := false;
      }
    }
  }

  /** A session for one command over a transcript whose capture ends at the bare prompt. */
  method ExampleSession()
  {
    var app := new App();
    app.AddCmd("show version");
    var started := app.Extract();
    assert started && app.extracting;
    var again := app.Extract();
    assert !again && app.extracting && app.progress == 0.0;
    var port := new Port(["IOS line1\r\n", "!\r\n", "IOS line2\r\n", "Router#"]);
    CaptureExample();
    ExtractionSingle("show version", port.pending);
    var complete := app.RunExtraction(port);
    assert complete == 1 && app.progress == 100.0 && !app.extracting;
    assert app.config == Some("IOS line1\n" + "IOS line2\n");
  }
}
