/**
 * The text protocol config-puller speaks with a router console: how a
 * command is framed on the wire, how the lines read back are filtered into
 * the captured output, where a capture ends, and what a whole extraction
 * run produces from a transcript of device lines.
 *
 * Everything here is a value-level specification; the imperative code in
 * the ConfigPuller module is proved against it.
 */
module Protocol {

  datatype Option<T> = None | Some(value: T)

  /** The privileged-mode prompt; a read equal to it ends a capture. */
  const Prompt: string := "Router#"
  /** How many characters every read loses before it is kept ("\r\n"). */
  const TerminatorLength: nat := 2
  /** How many characters are cut from the end of a finished capture. */
  const PromptTrim: nat := 6

  /** The two commands written before any user command. */
  const EnableCommand: string := "enable"
  const NoPagingCommand: string := "terminal length 0"

  // ---------------------------------------------------------------------
  // Command framing

  /** The text written on the wire for one command. */
  function Frame(cmd: string): (wire: string)
    ensures |wire| == |cmd| + 1
    ensures wire[..|cmd|] == cmd && wire[|cmd|] == '\n'
  {
    cmd + "\n"
  }

  /** A command without line feeds becomes exactly one line: its only line feed is the last character. */
  lemma FrameIsOneLine(cmd: string)
    requires '\n' !in cmd
    ensures forall i :: 0 <= i < |Frame(cmd)| ==> (Frame(cmd)[i] == '\n' <==> i == |cmd|)
  {
    forall i | 0 <= i < |Frame(cmd)|
      ensures Frame(cmd)[i] == '\n' <==> i == |cmd|
    {
      if i < |cmd| {
        assert Frame(cmd)[i] == cmd[i];
      }
    }
  }

  /** Different commands are never framed to the same wire text. */
  lemma FrameInjective(a: string, b: string)
    ensures Frame(a) == Frame(b) <==> a == b
  {
    if Frame(a) == Frame(b) {
      assert a == Frame(a)[..|a|];
      assert b == Frame(b)[..|b|];
    }
  }

  /** The wire log of writing the commands `cmds` one after the other. */
  function Frames(cmds: seq<string>): seq<string>
  {
    seq(|cmds|, i requires 0 <= i < |cmds| => Frame(cmds[i]))
  }

  /** Framing a list distributes over joining lists. */
  lemma FramesAppend(a: seq<string>, b: seq<string>)
    ensures Frames(a + b) == Frames(a) + Frames(b)
  {
  }

  /** The frames of the first `i + 1` commands are those of the first `i` and one more. */
  lemma FramesPrefixStep(cmds: seq<string>, i: nat)
    requires i < |cmds|
    ensures Frames(cmds[..i + 1]) == Frames(cmds[..i]) + [Frame(cmds[i])]
  {
    assert cmds[..i + 1] == cmds[..i] + [cmds[i]];
    FramesAppend(cmds[..i], [cmds[i]]);
  }

  // ---------------------------------------------------------------------
  // Line filtering

  /** Python's `s[:-n]` for n > 0: `s` without its last `n` characters, or "" when it is shorter. */
  function DropLast(s: string, n: nat): (t: string)
    requires n > 0
    ensures t <= s
    ensures |t| == if |s| < n then 0 else |s| - n
  {
    if |s| < n then "" else s[..|s| - n]
  }

  /** A read is kept when it has no progress tick and is not blank once its terminator is cut. */
  predicate Kept(line: string)
    ensures Kept(line) <==> '!' !in line && |line| > TerminatorLength
  {
    '!' !in line && DropLast(line, TerminatorLength) != ""
  }

  /**
   * What one read appends to the capture buffer: a kept read gives its text
   * without the terminator and one line feed, one character shorter than
   * the read; any other read gives nothing.
   */
  function Contribution(line: string): (c: string)
    ensures |c| == if Kept(line) then |line| - 1 else 0
  {
    if Kept(line) then DropLast(line, TerminatorLength) + "\n" else ""
  }

  /** The capture buffer after the reads `lines`, taken one at a time; unless empty, it ends with a line feed. */
  function Accumulate(lines: seq<string>): (buffer: string)
  {
    if lines == [] then "" else Accumulate(lines[..|lines| - 1]) + Contribution(lines[|lines| - 1])
  }

  /** The buffer holds no progress tick and, unless it is empty, ends with a line feed. */
  lemma {:induction false} AccumulateShape(lines: seq<string>)
    ensures '!' !in Accumulate(lines)
    ensures Accumulate(lines) != "" ==> Accumulate(lines)[|Accumulate(lines)| - 1] == '\n'
    decreases |lines|
  {
    if lines != [] {
      var before, line := lines[..|lines| - 1], lines[|lines| - 1];
      AccumulateShape(before);
      var b, c := Accumulate(before), Contribution(line);
      assert Accumulate(lines) == b + c;
      if Kept(line) {
        assert forall i :: 0 <= i < |c| - 1 ==> c[i] == line[i];
        assert c[|c| - 1] == '\n';
      }
    }
  }

  /** The texts of the kept reads, in read order (a reference definition of the capture). */
  function KeptTexts(lines: seq<string>): seq<string>
  {
    if lines == [] then []
    else if Kept(lines[0]) then [DropLast(lines[0], TerminatorLength)] + KeptTexts(lines[1..])
    else KeptTexts(lines[1..])
  }

  /** Texts joined with a line feed after each one. */
  function Unlines(texts: seq<string>): string
  {
    if texts == [] then "" else texts[0] + "\n" + Unlines(texts[1..])
  }

  /** The buffer is built read by read: two runs of reads contribute one after the other. */
  lemma {:induction false} AccumulateAppend(a: seq<string>, b: seq<string>)
    ensures Accumulate(a + b) == Accumulate(a) + Accumulate(b)
    decreases |b|
  {
    if b == [] {
      assert a + b == a;
    } else {
      var b', last := b[..|b| - 1], b[|b| - 1];
      assert (a + b)[..|a + b| - 1] == a + b';
      assert (a + b)[|a + b| - 1] == last;
      AccumulateAppend(a, b');
      calc {
        Accumulate(a + b);
        Accumulate(a + b') + Contribution(last);
        Accumulate(a) + Accumulate(b') + Contribution(last);
        Accumulate(a) + (Accumulate(b') + Contribution(last));
      }
    }
  }

  /** Each read adds its own contribution at its own place, whatever comes before or after. */
  lemma LineContribution(before: seq<string>, line: string, after: seq<string>)
    ensures Accumulate(before + [line] + after)
         == Accumulate(before) + Contribution(line) + Accumulate(after)
  {
    AccumulateAppend(before + [line], after);
    assert (before + [line])[..|before + [line]| - 1] == before;
  }

  /** The first read's contribution comes first in the buffer. */
  lemma AccumulateCons(line: string, after: seq<string>)
    ensures Accumulate([line] + after) == Contribution(line) + Accumulate(after)
  {
    EmptyBefore(line, after);
    LineContribution([], line, after);
  }

  /** Nothing before a read is no reads at all. */
  lemma EmptyBefore(line: string, after: seq<string>)
    ensures [] + [line] + after == [line] + after
  {
  }

  /** A dropped read (a tick line, a blank line) leaves the capture as if it had never been read. */
  lemma DroppedLineAddsNothing(before: seq<string>, line: string, after: seq<string>)
    requires !Kept(line)
    ensures Accumulate(before + [line] + after) == Accumulate(before + after)
  {
    LineContribution(before, line, after);
    AccumulateAppend(before, after);
  }

  /** A timeout (an empty read) adds nothing to the capture. */
  lemma TimeoutAddsNothing(before: seq<string>, after: seq<string>)
    ensures Accumulate(before + [""] + after) == Accumulate(before + after)
  {
    DroppedLineAddsNothing(before, "", after);
  }

  /** A read holding a progress tick adds nothing to the capture. */
  lemma TickLineAddsNothing(before: seq<string>, line: string, after: seq<string>)
    requires '!' in line
    ensures Accumulate(before + [line] + after) == Accumulate(before + after)
  {
    DroppedLineAddsNothing(before, line, after);
  }

  /** A kept read adds exactly its text without the terminator and one line feed. */
  lemma KeptLineAdds(before: seq<string>, line: string, after: seq<string>)
    requires Kept(line)
    ensures Accumulate(before + [line] + after)
         == Accumulate(before) + line[..|line| - TerminatorLength] + "\n" + Accumulate(after)
  {
    LineContribution(before, line, after);
  }

  /** The capture is the kept texts, in read order, each followed by one line feed. */
  lemma {:induction false} AccumulateIsKeptTexts(lines: seq<string>)
    ensures Accumulate(lines) == Unlines(KeptTexts(lines))
    decreases |lines|
  {
    if lines != [] {
      assert lines == [] + [lines[0]] + lines[1..];
      LineContribution([], lines[0], lines[1..]);
      AccumulateIsKeptTexts(lines[1..]);
    }
  }

  /** Every kept text is non-empty and free of progress ticks. */
  lemma {:induction false} KeptTextsAreClean(lines: seq<string>)
    ensures forall t :: t in KeptTexts(lines) ==> t != "" && '!' !in t
    decreases |lines|
  {
    if lines != [] {
      KeptTextsAreClean(lines[1..]);
      if Kept(lines[0]) {
        var t := DropLast(lines[0], TerminatorLength);
        assert forall c :: c in t ==> c in lines[0];
      }
    }
  }

  /** The prompt read itself is kept, and adds the six characters "Route\n". */
  lemma PromptAddsFragment()
    ensures Contribution(Prompt) == "Route\n"
    ensures |Contribution(Prompt)| == PromptTrim
  {
    assert DropLast(Prompt, TerminatorLength) == "Route";
  }

  // ---------------------------------------------------------------------
  // One capture: read until the prompt

  /** The result of one capture: the text and how many reads it took, or no prompt ever came. */
  datatype Reply = Done(text: string, consumed: nat) | NotTerminated

  /**
   * What one capture returns for the reads `lines`, taken one at a time: a
   * read that is exactly the prompt ends it, every read before that adds
   * its contribution, and running out of reads means it never ends.
   */
  function ReadUntilEnd(lines: seq<string>): (r: Reply)
    ensures r.Done? ==> 0 < r.consumed <= |lines|
  {
    if lines == [] then NotTerminated
    else if lines[0] == Prompt then Done("", 1)
    else match ReadUntilEnd(lines[1..])
      case NotTerminated => NotTerminated
      case Done(text, n) => Done(Contribution(lines[0]) + text, n + 1)
  }

  /** A capture stops at the read `k` when that read is the prompt and no earlier one is. */
  lemma {:induction false} StopsAtFirstPrompt(lines: seq<string>, k: nat)
    requires k < |lines| && lines[k] == Prompt && Prompt !in lines[..k]
    ensures ReadUntilEnd(lines).Done? && ReadUntilEnd(lines).consumed == k + 1
    decreases k
  {
    if k > 0 {
      assert lines[0] == lines[..k][0];
      assert lines[1..][..k - 1] == lines[..k][1..];
      StopsAtFirstPrompt(lines[1..], k - 1);
    }
  }

  /** A capture ends exactly when some read is the prompt, and it ends on the first such read. */
  lemma {:induction false} ReadUntilEndStops(lines: seq<string>)
    ensures ReadUntilEnd(lines).Done? <==> Prompt in lines
    ensures ReadUntilEnd(lines).Done? ==>
              var n := ReadUntilEnd(lines).consumed;
              lines[n - 1] == Prompt && Prompt !in lines[..n - 1]
    decreases |lines|
  {
    if lines != [] && lines[0] != Prompt {
      var rest := lines[1..];
      ReadUntilEndStops(rest);
      assert lines == [lines[0]] + rest;
      match ReadUntilEnd(rest)
      case NotTerminated =>
      case Done(_, n) =>
        assert lines[..n] == [lines[0]] + rest[..n - 1];
    } else if lines != [] {
      assert lines[..0] == [];
    }
  }

  /** A finished capture is the buffer built from the reads before the prompt read. */
  lemma {:induction false} CaptureIsAccumulate(lines: seq<string>, text: string, n: nat)
    requires ReadUntilEnd(lines) == Done(text, n)
    ensures 0 < n <= |lines| && text == Accumulate(lines[..n - 1])
    decreases |lines|
  {
    if lines[0] == Prompt {
      assert lines[..0] == [];
    } else {
      var rest := lines[1..];
      var t, m := ReadUntilEnd(rest).text, ReadUntilEnd(rest).consumed;
      assert ReadUntilEnd(rest) == Done(t, m);
      CaptureIsAccumulate(rest, t, m);
      assert text == Contribution(lines[0]) + t && n == m + 1;
      assert lines[..m] == [lines[0]] + rest[..m - 1];
      AccumulateCons(lines[0], rest[..m - 1]);
    }
  }

  /** A finished capture is the kept texts read before the prompt, each ended by one line feed. */
  lemma CaptureIsKeptTexts(lines: seq<string>)
    requires ReadUntilEnd(lines).Done?
    ensures ReadUntilEnd(lines).text == Unlines(KeptTexts(lines[..ReadUntilEnd(lines).consumed - 1]))
  {
    CaptureIsAccumulate(lines, ReadUntilEnd(lines).text, ReadUntilEnd(lines).consumed);
    AccumulateIsKeptTexts(lines[..ReadUntilEnd(lines).consumed - 1]);
  }

  /** One more read extends the buffer by that read's contribution. */
  lemma AccumulateStep(lines: seq<string>, i: nat)
    requires i < |lines|
    ensures Accumulate(lines[..i + 1]) == Accumulate(lines[..i]) + Contribution(lines[i])
  {
    assert lines[..i + 1][..i] == lines[..i];
  }

  /**
   * The buffer at the first prompt read ends with the prompt's own "Route\n";
   * cutting the last six characters leaves exactly the capture.
   */
  lemma TrimAtPrompt(lines: seq<string>, k: nat)
    requires k < |lines| && lines[k] == Prompt && Prompt !in lines[..k]
    ensures ReadUntilEnd(lines) == Done(DropLast(Accumulate(lines[..k + 1]), PromptTrim), k + 1)
  {
    StopsAtFirstPrompt(lines, k);
    CaptureIsAccumulate(lines, ReadUntilEnd(lines).text, k + 1);
    AccumulateStep(lines, k);
    PromptAddsFragment();
    var before := Accumulate(lines[..k]);
    assert (before + "Route\n")[..|before|] == before;
  }

  /** The reads up to the first prompt decide the capture, whatever reads follow them. */
  lemma CaptureThenAnything(lines: seq<string>, tail: seq<string>)
    requires ReadUntilEnd(lines).Done?
    ensures ReadUntilEnd(lines[..ReadUntilEnd(lines).consumed] + tail) == ReadUntilEnd(lines)
  {
    ReadUntilEndStops(lines);
    var k := ReadUntilEnd(lines).consumed - 1;
    var all := lines[..k + 1] + tail;
    assert all[..k] == lines[..k];
    assert all[k] == Prompt;
    StopsAtFirstPrompt(all, k);
    CaptureIsAccumulate(lines, ReadUntilEnd(lines).text, k + 1);
    CaptureIsAccumulate(all, ReadUntilEnd(all).text, k + 1);
  }

  /** Reads after the prompt are never consulted: appending anything to the transcript changes nothing. */
  lemma LaterReadsIgnored(lines: seq<string>, rest: seq<string>)
    requires ReadUntilEnd(lines).Done?
    ensures ReadUntilEnd(lines + rest) == ReadUntilEnd(lines)
    ensures ReadUntilEnd(lines[..ReadUntilEnd(lines).consumed] + rest) == ReadUntilEnd(lines)
  {
    var n := ReadUntilEnd(lines).consumed;
    CaptureThenAnything(lines, rest);
    CaptureThenAnything(lines, lines[n..] + rest);
    assert lines + rest == lines[..n] + (lines[n..] + rest);
  }

  /** A transcript without an exact prompt read never terminates the capture, whatever else it holds. */
  lemma NoExactPromptNeverStops(lines: seq<string>)
    requires forall i :: 0 <= i < |lines| ==> lines[i] != Prompt
    ensures ReadUntilEnd(lines) == NotTerminated
  {
    ReadUntilEndStops(lines);
  }

  /** A prompt followed by its own line terminator is not the prompt. */
  lemma TerminatedPromptIsNotPrompt()
    ensures Prompt + "\r\n" != Prompt
    ensures ReadUntilEnd([Prompt + "\r\n"]) == NotTerminated
  {
    assert |Prompt + "\r\n"| != |Prompt|;
    NoExactPromptNeverStops([Prompt + "\r\n"]);
  }

  /** A device transcript with a tick line, ended by the bare prompt. */
  lemma CaptureExample()
    ensures ReadUntilEnd(["IOS line1\r\n", "!\r\n", "IOS line2\r\n", "Router#"])
         == Done("IOS line1\n" + "IOS line2\n", 4)
  {
    var lines := ["IOS line1\r\n", "!\r\n", "IOS line2\r\n", "Router#"];
    assert ReadUntilEnd(lines[3..]) == Done("", 1) by {
      assert lines[3..] == [Prompt];
    }
    assert ReadUntilEnd(lines[2..]) == Done("IOS line2\n", 2) by {
      assert Contribution(lines[2]) == "IOS line2\n" by {
        assert DropLast(lines[2], TerminatorLength) == "IOS line2";
      }
      ReadStep(lines[2..], "", 1);
      assert lines[2..][1..] == lines[3..];
    }
    assert ReadUntilEnd(lines[1..]) == Done("IOS line2\n", 3) by {
      assert Contribution(lines[1]) == "" by {
        assert '!' in lines[1];
      }
      ReadStep(lines[1..], "IOS line2\n", 2);
      assert lines[1..][1..] == lines[2..];
    }
    assert Contribution(lines[0]) == "IOS line1\n" by {
      assert DropLast(lines[0], TerminatorLength) == "IOS line1";
    }
    ReadStep(lines, "IOS line2\n", 3);
  }

  /** One read that is not the prompt: its contribution goes in front of the rest of the capture. */
  lemma ReadStep(lines: seq<string>, text: string, n: nat)
    requires lines != [] && lines[0] != Prompt && ReadUntilEnd(lines[1..]) == Done(text, n)
    ensures ReadUntilEnd(lines) == Done(Contribution(lines[0]) + text, n + 1)
  {
  }

  // ---------------------------------------------------------------------
  // A whole extraction run

  /**
   * The outcome of capturing every user command over one transcript: the
   * joined output and the number of reads used, or the number of commands
   * finished before a capture that never sees the prompt.
   */
  datatype Outcome = Finished(result: string, consumed: nat) | Hung(completed: nat)

  /** Prefix an outcome with `text` captured over `used` reads by `done` earlier commands. */
  function After(text: string, done: nat, used: nat, o: Outcome): Outcome
  {
    match o
    case Finished(r, n) => Finished(text + r, used + n)
    case Hung(c) => Hung(done + c)
  }

  /** Capture the commands `cmds` one after the other over the transcript `lines`. */
  function Extraction(cmds: seq<string>, lines: seq<string>): (o: Outcome)
    ensures o.Hung? ==> o.completed < |cmds|
    ensures o.Finished? ==> o.consumed <= |lines|
    decreases |cmds|
  {
    if cmds == [] then Finished("", 0)
    else match ReadUntilEnd(lines)
      case NotTerminated => Hung(0)
      case Done(text, n) => After(text, 1, n, Extraction(cmds[1..], lines[n..]))
  }

  /** Run the commands `b` on the reads left over by `first`, a run of `done` commands; a hung run stays hung. */
  function Continue(first: Outcome, done: nat, b: seq<string>, lines: seq<string>): Outcome
    requires first.Finished? ==> first.consumed <= |lines|
  {
    match first
    case Finished(r, n) => After(r, done, n, Extraction(b, lines[n..]))
    case Hung(c) => Hung(c)
  }

  /** Two prefixes in a row are one longer prefix. */
  lemma AfterAfter(t: string, j: nat, n: nat, r: string, k: nat, m: nat, o: Outcome)
    ensures After(t, j, n, After(r, k, m, o)) == After(t + r, j + k, n + m, o)
  {
    match o
    case Hung(_) =>
    case Finished(s, _) =>
      assert t + (r + s) == (t + r) + s;
  }

  /** A non-empty run whose first capture ends is that capture followed by the run of the rest. */
  lemma ExtractionUnfold(cmds: seq<string>, lines: seq<string>, text: string, n: nat)
    requires cmds != [] && ReadUntilEnd(lines) == Done(text, n)
    ensures n <= |lines|
    ensures Extraction(cmds, lines) == After(text, 1, n, Extraction(cmds[1..], lines[n..]))
  {
  }

  /**
   * Running `a + b` is running `a` and then, on the reads left over, `b`;
   * a run that hangs in `a` never reaches `b`.
   */
  lemma {:induction false} ExtractionAppend(a: seq<string>, b: seq<string>, lines: seq<string>)
    ensures Extraction(a + b, lines) == Continue(Extraction(a, lines), |a|, b, lines)
    decreases |a|
  {
    if a == [] {
      assert a + b == b;
      assert lines[0..] == lines;
    } else {
      match ReadUntilEnd(lines)
      case NotTerminated =>
        assert a + b != [];
      case Done(text, n) =>
        ExtractionAppend(a[1..], b, lines[n..]);
        ExtractionAppendStep(a, b, lines, text, n);
    }
  }

  /** The inductive step of ExtractionAppend, once the first capture has ended. */
  lemma ExtractionAppendStep(a: seq<string>, b: seq<string>, lines: seq<string>, text: string, n: nat)
    requires a != [] && ReadUntilEnd(lines) == Done(text, n) && n <= |lines|
    requires Extraction(a[1..] + b, lines[n..]) == Continue(Extraction(a[1..], lines[n..]), |a| - 1, b, lines[n..])
    ensures Extraction(a + b, lines) == Continue(Extraction(a, lines), |a|, b, lines)
  {
    ExtractionUnfoldAppend(a, b, lines, text, n);
    ExtractionUnfold(a, lines, text, n);
    ContinueAfterRuns(a, b, lines, text, n);
  }

  /** ExtractionUnfold for a run of `a + b` with `a` not empty. */
  lemma ExtractionUnfoldAppend(a: seq<string>, b: seq<string>, lines: seq<string>, text: string, n: nat)
    requires a != [] && ReadUntilEnd(lines) == Done(text, n)
    ensures n <= |lines|
    ensures Extraction(a + b, lines) == After(text, 1, n, Extraction(a[1..] + b, lines[n..]))
  {
    ExtractionUnfold(a + b, lines, text, n);
    assert (a + b)[1..] == a[1..] + b;
  }

  /** ExtractionAppendStep with the runs named, so that no capture needs unfolding. */
  lemma ContinueAfterRuns(a: seq<string>, b: seq<string>, lines: seq<string>, text: string, n: nat)
    requires a != [] && n <= |lines|
    requires Extraction(a + b, lines) == After(text, 1, n, Extraction(a[1..] + b, lines[n..]))
    requires Extraction(a, lines) == After(text, 1, n, Extraction(a[1..], lines[n..]))
    requires Extraction(a[1..] + b, lines[n..]) == Continue(Extraction(a[1..], lines[n..]), |a| - 1, b, lines[n..])
    ensures Extraction(a + b, lines) == Continue(Extraction(a, lines), |a|, b, lines)
  {
    ContinueAfter(text, n, Extraction(a[1..], lines[n..]), |a| - 1, b, lines);
  }

  /** Prefixing a capture commutes with running more commands after it. */
  lemma ContinueAfter(text: string, n: nat, first: Outcome, k: nat, b: seq<string>, lines: seq<string>)
    requires n <= |lines| && (first.Finished? ==> first.consumed <= |lines| - n)
    ensures After(text, 1, n, Continue(first, k, b, lines[n..])) == Continue(After(text, 1, n, first), k + 1, b, lines)
  {
    match first
    case Hung(_) =>
    case Finished(r, m) =>
      assert lines[n..][m..] == lines[n + m..];
      AfterAfter(text, 1, n, r, k, m, Extraction(b, lines[n + m..]));
  }

  /**
   * The worker's loop seen from the commands still to run: when the whole
   * run is `result` on `used` reads after `i` commands, followed by the run
   * of the rest of the commands on the unread lines `rest`, a capture of the
   * next command that ends moves the split one command on.
   */
  lemma ResumeDone(cmds: seq<string>, i: nat, rest: seq<string>, result: string, used: nat, whole: Outcome,
                   text: string, n: nat)
    requires i < |cmds| && whole == After(result, i, used, Extraction(cmds[i..], rest))
    requires ReadUntilEnd(rest) == Done(text, n)
    ensures n <= |rest|
    ensures whole == After(result + text, i + 1, used + n, Extraction(cmds[i + 1..], rest[n..]))
  {
    var tail := cmds[i..];
    ExtractionUnfold(tail, rest, text, n);
    assert tail[1..] == cmds[i + 1..];
    var after := Extraction(cmds[i + 1..], rest[n..]);
    assert Extraction(tail, rest) == After(text, 1, n, after);
    AfterAfter(result, i, used, text, 1, n, after);
  }

  /** The other outcome: a capture of the next command that never ends hangs the whole run at `i`. */
  lemma ResumeHung(cmds: seq<string>, i: nat, rest: seq<string>, result: string, used: nat, whole: Outcome)
    requires i < |cmds| && whole == After(result, i, used, Extraction(cmds[i..], rest))
    requires ReadUntilEnd(rest).NotTerminated?
    ensures whole == Hung(i)
  {
    assert cmds[i..] != [];
  }

  /** Before the first command nothing is captured and no read is used. */
  lemma ResumeStart(cmds: seq<string>, lines: seq<string>)
    ensures Extraction(cmds, lines) == After("", 0, 0, Extraction(cmds[0..], lines))
  {
    assert cmds[0..] == cmds;
    match Extraction(cmds, lines)
    case Hung(_) =>
    case Finished(r, _) =>
      assert "" + r == r;
  }

  /** After the last command the whole run is what was captured so far. */
  lemma ResumeEnd(cmds: seq<string>, rest: seq<string>, result: string, used: nat, whole: Outcome)
    requires whole == After(result, |cmds|, used, Extraction(cmds[|cmds|..], rest))
    ensures whole == Finished(result, used)
  {
    assert cmds[|cmds|..] == [];
    assert result + "" == result;
  }

  /**
   * The bootstrap commands are written but their replies are never read, so
   * those replies are the first reads of the first user command's capture:
   * an exact prompt among them ends that capture early.
   */
  lemma BootstrapRepliesReachFirstCapture()
    ensures Extraction(["show running-config"], ["enable\r\n", "Router#", "Building configuration...\r\n", "Router#"])
         == Finished("enable\n", 2)
  {
    var lines := ["enable\r\n", "Router#", "Building configuration...\r\n", "Router#"];
    assert ReadUntilEnd(lines[1..]) == Done("", 1);
    assert Contribution(lines[0]) == "enable\n" by {
      assert DropLast(lines[0], TerminatorLength) == "enable";
    }
    ReadStep(lines, "", 1);
    ExtractionSingle("show running-config", lines);
  }

  /** A run of one command is one capture. */
  lemma ExtractionSingle(cmd: string, lines: seq<string>)
    ensures Extraction([cmd], lines)
         == match ReadUntilEnd(lines)
            case Done(text, n) => Finished(text, n)
            case NotTerminated => Hung(0)
  {
    match ReadUntilEnd(lines)
    case NotTerminated =>
    case Done(text, n) =>
      ExtractionUnfold([cmd], lines, text, n);
      assert [cmd][1..] == [];
      assert text + "" == text;
  }
}
