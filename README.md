# config-puller: a Dafny model of the console capture

config-puller is a small desktop tool that pulls the configuration out of a
Cisco-style router over its serial console. The user builds a list of show
commands. The tool then does the following:

- it writes `enable` and `terminal length 0` without reading their replies,
  so those replies become the first lines the first command's capture reads;
- it sends each user command and reads the device's answer line by line
  until the privileged prompt `Router#` comes back;
- it filters each answer (drops progress-tick lines and blank lines, strips
  the `\r\n` terminators, cuts the echoed prompt fragment off the end);
- it joins the answers and saves them as `config.txt`.

This project models that capture core of `app.py` and proves what it
produces. There are three modules.

- `Protocol` (protocol.dfy) is the value-level specification.
  - `Frame` is the text written for one command.
  - `Kept` and `Contribution` say what one read adds to a capture.
  - `Accumulate` is the capture buffer built read by read. `KeptTexts` and
    `Unlines` give an independent reference definition of the same text.
  - `ReadUntilEnd` is one capture over a transcript of decoded lines: the
    text and the number of reads used, or `NotTerminated` when no read is
    exactly `Router#`.
  - `Extraction` is a whole run of user commands over one transcript: the
    joined text and the reads used, or `Hung(c)` when the capture of
    command `c` never ends.
- `SerialPort` (serial_port.dfy) is the console connection as a class.
  - `sent` is the log of texts written.
  - `pending` holds the device lines not yet read.
  - `ReadLine` returns `""` (a timeout) once `pending` is empty.
- `ConfigPuller` (app.dfy) is the `App` class.
  - Its fields are `commands`, `progress`, `extracting` and `config`; `config`
    holds what the finished run saves to `config.txt`.
  - Its methods are `AddCmd`, `Extract`, `WriteCmd`, `ReadUntilEnd`, and
    `CaptureCommands` and `RunExtraction` for the worker `_extract`.
  - Every method is imperative. `WriteCmd`, `ReadUntilEnd`,
    `CaptureCommands` and `RunExtraction` are proved against the `Protocol`
    functions; `AddCmd` and `Extract` state the new field values directly.

The constants are as in `app.py`: the prompt `"Router#"`, a terminator of two
characters and a final trim of six characters.

Behaviour of `app.py` that the model keeps, though a reader might expect
otherwise:

- Only a read that is exactly `"Router#"` ends a capture. A prompt read as
  `"Router#\r\n"` does not end it (`TerminatedPromptIsNotPrompt`); a capture
  whose prompt always arrives that way never ends (`NoExactPromptNeverStops`).
- The progress is `complete / len(commands) * 100`. It is not reset when the
  run ends, so after a full run it stays at 100. With no commands it is never
  touched.
- `extract` resets the progress to 0 even when a run is already under way.
- The final trim is the fixed six characters `"Route\n"`, which the prompt
  read itself adds to the buffer (`PromptAddsFragment`, `TrimAtPrompt`).

## Model

| member | source | states |
|---|---|---|
| Protocol.Frame | app.py:80-82 | the wire text of a command is the command followed by exactly one line feed, one character longer |
| Protocol.FrameIsOneLine | app.py:81 | a command without line feeds is sent as one line whose only line feed is the last character |
| Protocol.FrameInjective | app.py:81 | two commands are framed to the same wire text exactly when they are equal |
| Protocol.FramesAppend | app.py:68-70 | the wire log of a list of commands is the logs of its parts, in order |
| Protocol.FramesPrefixStep | app.py:70-72 | capturing one more command adds exactly that command's frame to the wire log |
| Protocol.DropLast | app.py:90-92 | the slice `s[:-n]`, for the positive `n` the source uses, is a prefix of `s`, `n` shorter, or empty when `s` is shorter than `n` |
| Protocol.Kept | app.py:90 | a read passes the filter exactly when it holds no `!` and is longer than its two-character terminator |
| Protocol.Contribution | app.py:90-91 | a kept read adds one character fewer than it has (its terminator cut, one line feed added); any other read adds nothing |
| Protocol.AccumulateShape | app.py:86-91 | the `output` buffer never holds a `!` and, unless empty, ends with a line feed |
| Protocol.AccumulateAppend | app.py:88-91 | the buffer of two runs of reads is the first buffer followed by the second |
| Protocol.LineContribution | app.py:89-91 | each read adds its own contribution at its own place, whatever is read before or after it |
| Protocol.AccumulateCons | app.py:89-91 | the first read's contribution comes first in the buffer |
| Protocol.AccumulateStep | app.py:89-91 | one more read extends the buffer by that read's contribution and nothing else |
| Protocol.DroppedLineAddsNothing | app.py:90 | a read that fails the filter leaves the buffer as if it had never been read |
| Protocol.TimeoutAddsNothing | app.py:88-90 | an empty read (a timeout) adds nothing to the buffer |
| Protocol.TickLineAddsNothing | app.py:90 | a read containing `!` adds nothing to the buffer |
| Protocol.KeptLineAdds | app.py:90-91 | a kept read adds exactly its text without the last two characters, then one line feed |
| Protocol.AccumulateIsKeptTexts | app.py:86-91 | the buffer equals the kept texts in read order, each followed by one line feed |
| Protocol.KeptTextsAreClean | app.py:90-91 | every kept text is non-empty and free of `!` |
| Protocol.PromptAddsFragment | app.py:88-92 | the prompt read is kept and adds exactly the six characters `"Route\n"` |
| Protocol.ReadUntilEnd | app.py:84-92 | a finished capture uses at least one read and no more reads than the transcript holds |
| Protocol.StopsAtFirstPrompt | app.py:88-89 | when read k is the prompt and no earlier read is, the capture ends after exactly k + 1 reads |
| Protocol.ReadUntilEndStops | app.py:88-89 | a capture ends if and only if some read is exactly the prompt, and its last read is the first such read |
| Protocol.CaptureIsAccumulate | app.py:86-92 | a finished capture is the buffer built from the reads before the prompt read |
| Protocol.CaptureIsKeptTexts | app.py:86-92 | a finished capture is the kept texts read before the prompt, in read order, each ended by one line feed |
| Protocol.TrimAtPrompt | app.py:90-92 | cutting six characters from the buffer at the first prompt read leaves exactly the capture |
| Protocol.CaptureThenAnything | app.py:88-89 | the reads up to the first prompt decide the capture, whatever reads follow |
| Protocol.LaterReadsIgnored | app.py:88-89 | appending reads after a finished capture's transcript changes neither its text nor its read count |
| Protocol.NoExactPromptNeverStops | app.py:88-89 | a transcript with no read equal to `"Router#"` never ends the capture |
| Protocol.TerminatedPromptIsNotPrompt | app.py:88 | `"Router#\r\n"` is not the prompt, and a capture that sees only it does not end |
| Protocol.ReadStep | app.py:88-91 | proof step: a read that is not the prompt puts its contribution in front of the rest of the capture and uses one more read |
| Protocol.CaptureExample | app.py:84-92 | the transcript `IOS line1`, `!`, `IOS line2`, `Router#` captures `"IOS line1\nIOS line2\n"` in four reads |
| Protocol.Extraction | app.py:70-73 | a hung run stops at a command that exists; a finished run uses no more reads than the transcript holds |
| Protocol.ExtractionUnfold | app.py:70-73 | proof step: a run whose first capture ends is that capture followed by the run of the other commands on the reads left over |
| Protocol.ExtractionAppend | app.py:70-73 | running `a + b` is running `a` and then `b` on the reads left over; a run that hangs in `a` never reaches `b` |
| Protocol.ExtractionSingle | app.py:70-73 | a run of one command is exactly that command's capture |
| Protocol.BootstrapRepliesReachFirstCapture | app.py:68-72 | the unread replies to the bootstrap commands are read by the first capture; a prompt among them ends it early, here with `"enable\n"` after two reads |
| Protocol.ResumeStart | app.py:64-66 | proof step: before the first command the run has captured nothing and used no reads |
| Protocol.ResumeDone | app.py:70-73 | a finished capture of the next command moves the split between done and pending commands one command on |
| Protocol.ResumeHung | app.py:70-72 | proof step: a capture of command i that never ends hangs the whole run at i |
| Protocol.ResumeEnd | app.py:70-73 | proof step: after the last command the run is finished with the joined captures so far |
| ConfigPuller.Percent | app.py:74 | the progress `complete / total * 100` stays within 0 to 100 and is exactly 100 if and only if every command is captured |
| SerialPort.Port.constructor | app.py:67 | a new connection has sent nothing, and every device line is still to be read |
| SerialPort.Port.Write | app.py:82 | a write appends its text to the wire log |
| SerialPort.Port.ReadLine | app.py:89 | a read takes the next device line, or returns `""` once none is left |
| ConfigPuller.App.constructor | app.py:20-22 | a new app has no commands, progress 0, no run in progress, and no saved configuration |
| ConfigPuller.App.AddCmd | app.py:48-50 | the entry is appended at the end of the command list and earlier entries are unchanged |
| ConfigPuller.App.Extract | app.py:54-61 | the progress is always reset to 0; a run starts exactly when none was in progress, and afterwards one is |
| ConfigPuller.App.WriteCmd | app.py:80-82 | the command's frame, and nothing else, is appended to the wire log |
| ConfigPuller.App.ReadUntilEnd | app.py:84-92 | the method writes the command's frame. It returns the capture of the pending reads and leaves the reads after the prompt unread; it returns None with every read used when no prompt comes |
| ConfigPuller.App.CaptureCommands | app.py:64-75 | the result is the run over the pending reads: the joined captures of every command in list order with `complete = len(commands)`, and progress 100 when `commands` is non-empty, otherwise unchanged; or, when a capture never ends, the number of commands finished, with progress at that count |
| ConfigPuller.App.RunExtraction | app.py:63-78 | the bootstrap commands are written first and add nothing to the result directly; the device's replies to them are part of the transcript the first capture reads. A finished run saves the joined captures as the configuration and clears `extracting`; a hung run saves nothing and keeps `extracting` |

## Left out

- The Tkinter interface (`init_basic`, `init_widgets`, the entry and list box updates, `showerror`) is not modelled. `AddCmd` takes the entry text as a parameter. `Extract` returns whether a run was started instead of showing an error.
- The serial port (`Serial("COM1", 9600, timeout=5)`) and the byte encoding and decoding are not modelled. The device's answers are a given list of decoded lines, and writes go to a log of texts.
- A failure opening the port is not modelled. In `app.py` it raises out of `_extract` and leaves `extracting` set.
- The other exceptions the worker can meet are not modelled: a `SerialException` from `ser.write` or `ser.readline`, a `UnicodeDecodeError` from `decode()` on bytes that are not UTF-8, and an `OSError` from opening or writing `config.txt`. Each ends `_extract` with `extracting` still True, so every later `extract` only shows its error. In the model, reads and writes never fail.
- The background thread is not modelled. `RunExtraction` is the worker, called in sequence after `Extract` has started a run. Because of this, an `add_cmd` while a run iterates over the live command list is not modelled either.
- Writing `config.txt` is not modelled. The text it would hold is stored in the `config` field.
- The `print` logging is not modelled.
- ConfigPuller.App.ReadUntilEnd: where `app.py` blocks forever, the model returns None. Once the transcript is used up every further read is a timeout `""`, which adds nothing and never equals the prompt, so the loop can never end. The method stops reading at that point and returns None. `CaptureCommands` and `RunExtraction` then stop, as the worker would never get further.
- ConfigPuller.Percent: the progress is the exact rational `complete / total * 100`, not the floating-point value `app.py` computes.
