# Serial command console: line editing, history recall and dispatch

This project models the command console task `vCommandConsoleTask` of the
WINC1500 HTTP downloader firmware. The task reads one byte at a time from the
serial console and does the following:

- it assembles the bytes into a command line in a fixed buffer, with a cursor;
- backspace and delete erase the last byte of the line;
- ESC starts a short escape sequence, and a completed sequence can recall the
  last submitted line;
- CR or LF submits the line: it is kept as the last command, and the
  FreeRTOS+CLI interpreter is called on it until it reports no more output;
  each call's output is written to the console.

The model also covers the clear-screen command `xCliClearTerminalScreen`.

The project has four modules:

- `CStrings` (`cstrings.dfy`): NUL-terminated byte buffers and the C library
  calls the task makes on them (`strncpy`, `memset`, `strlen`, `strcasecmp`,
  `snprintf`).
- `ConsoleModel` (`console_model.dfy`): the task's state as a value
  (`ConsoleState`), and what one received byte does to it (`Next`). `Run`
  applies `Next` to a finite stream of bytes.
- `CliConsole` (`console.dfy`): the task's static buffers as a class
  `Console`. The buffers are arrays that its methods update in place. Every
  method's ensures give its exact new state; `Step` is proved equal to
  `Next` and `Feed` to `Run`.
- `ConsoleProperties` (`console_properties.dfy`): what the console promises,
  proved about the functions of `ConsoleModel`.

The serial console is modelled by the sequence `log`: one entry for each
string written, holding the bytes up to its NUL. The interpreter is not part
of this model. It is an oracle: each CR or LF comes with the interpreter's
answers, a sequence of `Chunk`s. Each chunk holds the bytes one call writes
into the output buffer and whether the call asks to be called again. Some
chunk must report no more output. `calls` records the input buffer that each
call receives.

CliThread.h, which defines the buffer sizes and key codes, is not part of this
model. They are constants of `ConsoleModel` with these assumed values:

| constant | value |
|---|---|
| `MAX_INPUT_LENGTH_CLI` | 50 |
| `MAX_OUTPUT_LENGTH_CLI` | 100 |
| `CLI_PC_ESCAPE_CODE_SIZE` | 4 |
| `CLI_PC_MIN_ESCAPE_CODE_SIZE` | 2 |
| backspace | 0x08 |
| delete | 0x7F |
| ESC | 0x1B |

`CLI_MSG_LEN` is the parameter `msgLength` of `ClearTerminalScreen`.

Some of the code's behaviour is easy to miss. The model follows the code:

- A plain byte typed into a full line is dropped, but it is still echoed. The
  echo sits outside the capacity test.
- Backspace and delete write the erase sequence even on an empty line. Only
  the change to the buffer is guarded.
- CR and LF are tested before escape mode. A line break in the middle of an
  escape sequence therefore submits the line and resets the collector. The
  later test for `'\r'` can never be reached.
- The recall test `strcasecmp(pcEscapeCodes, "oa")` fires when the result is
  non-zero. Every two-byte sequence therefore recalls, including `ESC [ A`
  (up arrow) and `ESC [ B` (down arrow). The only exception is the bytes
  `o`, `a` in either case.
- The cursor can reach the buffer's full size. A line of 50 non-NUL bytes
  leaves no NUL in the input buffer that is handed to the interpreter.
- With the sizes above, the collector position never reaches
  `CLI_PC_ESCAPE_CODE_SIZE`: every sequence ends once it reaches
  `CLI_PC_MIN_ESCAPE_CODE_SIZE`, which is smaller. The reset of a full
  collector (lines 172-174) is therefore unreachable, as is the test for
  `'\r'`. `CollectEscape` still models that branch and states its result.
- The length of a recalled line is bounded. Line 130 always NUL-terminates the
  last command, so recall never puts the cursor past `MAX_INPUT_LENGTH_CLI - 1`.

## Model

| member | source | states |
|---|---|---|
| CStrings.CStr | A10_VoodooMagic/WINC1500_HTTP_DOWNLOADER_EXAMPLE1/src/CliThread/CliThread.c:188 | the C string of a buffer (what `strlen` counts and a string write sends) is a NUL-free prefix of the buffer, followed by a NUL or by the buffer's end |
| CStrings.StrNCpy | A10_VoodooMagic/WINC1500_HTTP_DOWNLOADER_EXAMPLE1/src/CliThread/CliThread.c:129 | after `strncpy(dst, src, n)`, each of the first n bytes is the C string of src's first n bytes, NUL-padded; dst beyond n is unchanged |
| CStrings.StrNCopy | A10_VoodooMagic/WINC1500_HTTP_DOWNLOADER_EXAMPLE1/src/CliThread/CliThread.c:187 | the in-place `strncpy` on arrays leaves exactly the contents `StrNCpy` describes |
| CStrings.Memset | A10_VoodooMagic/WINC1500_HTTP_DOWNLOADER_EXAMPLE1/src/CliThread/CliThread.c:159 | `memset` leaves every byte of the array NUL |
| CStrings.PaddedCopy | A10_VoodooMagic/WINC1500_HTTP_DOWNLOADER_EXAMPLE1/src/CliThread/CliThread.c:129-130 | a strncpy result whose final byte is forced to NUL holds the copied C string, with nothing but NULs after it |
| CStrings.CopyOfPadded | A10_VoodooMagic/WINC1500_HTTP_DOWNLOADER_EXAMPLE1/src/CliThread/CliThread.c:185-187 | a padded, NUL-terminated buffer copied into a cleared buffer of the same size with `strncpy(.., size - 1)` is reproduced exactly |
| CStrings.ToLower | A10_VoodooMagic/WINC1500_HTTP_DOWNLOADER_EXAMPLE1/src/CliThread/CliThread.c:179 | `tolower` maps each upper-case ASCII letter to its lower-case partner (c + 32), leaves every other byte alone, and never yields an upper-case letter |
| CStrings.SnPrintf | A10_VoodooMagic/WINC1500_HTTP_DOWNLOADER_EXAMPLE1/src/CliThread/CliThread.c:284-285 | `snprintf` with a plain format stores nothing for size 0; otherwise it stores the format cut to size - 1 bytes followed by exactly one NUL, at most size bytes in all |
| CStrings.EqualsIgnoringCase | A10_VoodooMagic/WINC1500_HTTP_DOWNLOADER_EXAMPLE1/src/CliThread/CliThread.c:179 | `strcasecmp(a, b) == 0`: the same length and equal byte by byte after `tolower`; equal strings always compare equal, and strings of different lengths never do |
| ConsoleModel.RecallRequested | A10_VoodooMagic/WINC1500_HTTP_DOWNLOADER_EXAMPLE1/src/CliThread/CliThread.c:179 | recall fires when the C string held by the collector does not equal `oa` under `tolower`: never for `oa` itself, and for the up arrow's `[A` |
| ConsoleModel.Initial | A10_VoodooMagic/WINC1500_HTTP_DOWNLOADER_EXAMPLE1/src/CliThread/CliThread.c:97-111 | the zeroed static buffers satisfy the console invariant, with an empty line and no escape sequence |
| ConsoleModel.CallCount | A10_VoodooMagic/WINC1500_HTTP_DOWNLOADER_EXAMPLE1/src/CliThread/CliThread.c:135-153 | the dispatch loop makes n calls: call n is the first to report no more output, and every earlier call asked for more |
| ConsoleModel.Written | A10_VoodooMagic/WINC1500_HTTP_DOWNLOADER_EXAMPLE1/src/CliThread/CliThread.c:140-145 | the interpreter's text overwrites the output buffer from its start, within the buffer's size; the rest of the buffer is kept |
| ConsoleModel.Capped | A10_VoodooMagic/WINC1500_HTTP_DOWNLOADER_EXAMPLE1/src/CliThread/CliThread.c:150 | the string that survives the forced final NUL is a prefix of the text: the whole text when it is shorter than the output buffer, and exactly its first `MAX_OUTPUT_LENGTH_CLI - 1` bytes otherwise |
| ConsoleModel.Interpret | A10_VoodooMagic/WINC1500_HTTP_DOWNLOADER_EXAMPLE1/src/CliThread/CliThread.c:140-151 | one interpreter call followed by one write changes only the output buffer, the console log and the record of calls |
| ConsoleModel.Dispatch | A10_VoodooMagic/WINC1500_HTTP_DOWNLOADER_EXAMPLE1/src/CliThread/CliThread.c:135-153 | the dispatch loop changes only the output buffer, the console log and the record of calls |
| ConsoleModel.Submit | A10_VoodooMagic/WINC1500_HTTP_DOWNLOADER_EXAMPLE1/src/CliThread/CliThread.c:121-159 | submitting a line keeps the console invariant (line buffer, NUL-terminated padded last command, collector within bounds) |
| ConsoleModel.Recall | A10_VoodooMagic/WINC1500_HTTP_DOWNLOADER_EXAMPLE1/src/CliThread/CliThread.c:181-189 | recall writes the clear-line prompt and then the last command; the line buffer becomes the last command, and the cursor its length, at most `MAX_INPUT_LENGTH_CLI - 1`; nothing else changes |
| ConsoleModel.CollectEscape | A10_VoodooMagic/WINC1500_HTTP_DOWNLOADER_EXAMPLE1/src/CliThread/CliThread.c:167-194 | a byte in escape mode is stored at the collector position while there is room; below the minimum length only the collector and its position change; reaching the minimum always ends the sequence at position 0; a full collector is reset with nothing else changed; the console invariant is kept |
| ConsoleModel.Erase | A10_VoodooMagic/WINC1500_HTTP_DOWNLOADER_EXAMPLE1/src/CliThread/CliThread.c:203-214 | backspace or delete keeps the console invariant (the cursor never goes below 0) |
| ConsoleModel.Accept | A10_VoodooMagic/WINC1500_HTTP_DOWNLOADER_EXAMPLE1/src/CliThread/CliThread.c:220-235 | a typed byte keeps the console invariant (the cursor never exceeds `MAX_INPUT_LENGTH_CLI`, and bytes at and above it stay NUL) |
| ConsoleModel.Next | A10_VoodooMagic/WINC1500_HTTP_DOWNLOADER_EXAMPLE1/src/CliThread/CliThread.c:121-236 | every received byte, taken in the task's order of tests, keeps the console invariant |
| ConsoleModel.Run | A10_VoodooMagic/WINC1500_HTTP_DOWNLOADER_EXAMPLE1/src/CliThread/CliThread.c:113-237 | the task's loop over any finite stream of bytes keeps the console invariant |
| ConsoleModel.ClearTerminalScreen | A10_VoodooMagic/WINC1500_HTTP_DOWNLOADER_EXAMPLE1/src/CliThread/CliThread.c:281-287 | the clear-screen command asks for no further call and writes within the given size; when it writes anything it writes a NUL-terminated prefix of ESC "[2J", and the whole code once both buffers have room |
| CliConsole.Console.constructor | A10_VoodooMagic/WINC1500_HTTP_DOWNLOADER_EXAMPLE1/src/CliThread/CliThread.c:97-111 | fresh, zeroed buffers and the welcome message: the state `Initial` |
| CliConsole.Console.Step | A10_VoodooMagic/WINC1500_HTTP_DOWNLOADER_EXAMPLE1/src/CliThread/CliThread.c:121-236 | handling one byte in place keeps the invariant, and leaves the state that `Next` gives |
| CliConsole.Console.Feed | A10_VoodooMagic/WINC1500_HTTP_DOWNLOADER_EXAMPLE1/src/CliThread/CliThread.c:113-237 | handling a stream of bytes in place leaves the state that `Run` gives |
| CliConsole.Console.SubmitLine | A10_VoodooMagic/WINC1500_HTTP_DOWNLOADER_EXAMPLE1/src/CliThread/CliThread.c:121-159 | the in-place submission leaves the state that `Submit` gives |
| CliConsole.Console.KeepLine | A10_VoodooMagic/WINC1500_HTTP_DOWNLOADER_EXAMPLE1/src/CliThread/CliThread.c:126-130 | writing the line break, resetting the collector and keeping the line with `strncpy` and a forced final NUL, in place, changes only those and leaves the last command `Submit` keeps |
| CliConsole.Console.RunInterpreter | A10_VoodooMagic/WINC1500_HTTP_DOWNLOADER_EXAMPLE1/src/CliThread/CliThread.c:135-153 | the do-while loop over the interpreter's answers leaves the state that `Dispatch` gives |
| CliConsole.Console.CallInterpreter | A10_VoodooMagic/WINC1500_HTTP_DOWNLOADER_EXAMPLE1/src/CliThread/CliThread.c:140-151 | one call and its write, in place, leave the state that `Interpret` gives |
| CliConsole.Console.CollectEscapeByte | A10_VoodooMagic/WINC1500_HTTP_DOWNLOADER_EXAMPLE1/src/CliThread/CliThread.c:167-194 | the in-place escape handling leaves the state that `CollectEscape` gives |
| CliConsole.Console.RecallLastCommand | A10_VoodooMagic/WINC1500_HTTP_DOWNLOADER_EXAMPLE1/src/CliThread/CliThread.c:181-189 | the in-place recall leaves the state that `Recall` gives |
| CliConsole.Console.RestoreLine | A10_VoodooMagic/WINC1500_HTTP_DOWNLOADER_EXAMPLE1/src/CliThread/CliThread.c:185-187 | clearing the line buffer and copying the last command into it with `strncpy(.., MAX_INPUT_LENGTH_CLI - 1)` leaves the buffer equal to the last command |
| ConsoleProperties.RunAppend | A10_VoodooMagic/WINC1500_HTTP_DOWNLOADER_EXAMPLE1/src/CliThread/CliThread.c:113-237 | running two byte streams one after the other is running their concatenation |
| ConsoleProperties.PlainByteStoredOrDropped | A10_VoodooMagic/WINC1500_HTTP_DOWNLOADER_EXAMPLE1/src/CliThread/CliThread.c:226-234 | a plain byte extends the line by itself while the cursor is below `MAX_INPUT_LENGTH_CLI`; otherwise the buffer and cursor are unchanged; it is echoed in both cases; the last command and the calls are unchanged |
| ConsoleProperties.EraseNeverUnderflows | A10_VoodooMagic/WINC1500_HTTP_DOWNLOADER_EXAMPLE1/src/CliThread/CliThread.c:203-214 | backspace and delete always write `08 20 08`; they drop the last byte of a non-empty line and leave an empty line and its cursor unchanged |
| ConsoleProperties.TypingAppends | A10_VoodooMagic/WINC1500_HTTP_DOWNLOADER_EXAMPLE1/src/CliThread/CliThread.c:226-230 | typing plain bytes into a line with room for them appends exactly those bytes and moves the cursor by their number |
| ConsoleProperties.ErasingDrops | A10_VoodooMagic/WINC1500_HTTP_DOWNLOADER_EXAMPLE1/src/CliThread/CliThread.c:209-213 | k erase keys on a line of at least k bytes leave its first length - k bytes |
| ConsoleProperties.LineDeterminesInput | A10_VoodooMagic/WINC1500_HTTP_DOWNLOADER_EXAMPLE1/src/CliThread/CliThread.c:212 | two valid line buffers with the same cursor and the same typed bytes are identical, since the bytes above the cursor are NUL |
| ConsoleProperties.TypeThenEraseRestores | A10_VoodooMagic/WINC1500_HTTP_DOWNLOADER_EXAMPLE1/src/CliThread/CliThread.c:203-230 | typing k plain bytes and then k erase keys restores the whole line buffer and the cursor exactly |
| ConsoleProperties.InterpretWritesItsText | A10_VoodooMagic/WINC1500_HTTP_DOWNLOADER_EXAMPLE1/src/CliThread/CliThread.c:147-151 | each interpreter call adds exactly one write, shorter than the output buffer, and one call on the input buffer; the write is the interpreter's own string, cut to fit, when that string is NUL-terminated |
| ConsoleProperties.DispatchAppends | A10_VoodooMagic/WINC1500_HTTP_DOWNLOADER_EXAMPLE1/src/CliThread/CliThread.c:135-153 | dispatch appends one write per call to the console log and one copy of the same input buffer per call, and keeps what was written before |
| ConsoleProperties.DispatchWrite | A10_VoodooMagic/WINC1500_HTTP_DOWNLOADER_EXAMPLE1/src/CliThread/CliThread.c:147-153 | the j-th write of the dispatch loop belongs to the j-th call: shorter than the output buffer, and that call's own string when it is NUL-terminated |
| ConsoleProperties.DispatchWritesOncePerCall | A10_VoodooMagic/WINC1500_HTTP_DOWNLOADER_EXAMPLE1/src/CliThread/CliThread.c:135-153 | the interpreter is called until it reports no more output; each call is followed by exactly one bounded write, in call order |
| ConsoleProperties.TerminatorSubmitsLine | A10_VoodooMagic/WINC1500_HTTP_DOWNLOADER_EXAMPLE1/src/CliThread/CliThread.c:121-159 | CR or LF, even mid-sequence, resets the collector and makes the last command the line cut to `MAX_INPUT_LENGTH_CLI - 1` bytes with a NUL in its final slot; it writes the line break, then one write per call, and leaves an all-NUL buffer with the cursor at 0 |
| ConsoleProperties.EscStartsSequence | A10_VoodooMagic/WINC1500_HTTP_DOWNLOADER_EXAMPLE1/src/CliThread/CliThread.c:215-219 | ESC outside a sequence starts one at position 0, writes nothing, and leaves the line, cursor and last command alone |
| ConsoleProperties.EscapeByteCollected | A10_VoodooMagic/WINC1500_HTTP_DOWNLOADER_EXAMPLE1/src/CliThread/CliThread.c:167-175 | in escape mode, a byte below the minimum length goes only into the collector, and the position advances by one |
| ConsoleProperties.EscapeSequenceEnds | A10_VoodooMagic/WINC1500_HTTP_DOWNLOADER_EXAMPLE1/src/CliThread/CliThread.c:176-193 | the byte that reaches the minimum length always ends the sequence at position 0 and never reaches the line buffer. When the recall test fires, the line becomes the last command with the cursor at most `MAX_INPUT_LENGTH_CLI - 1`, and the prompt and the line are written; otherwise nothing else changes |
| ConsoleProperties.RecallTestAsWritten | A10_VoodooMagic/WINC1500_HTTP_DOWNLOADER_EXAMPLE1/src/CliThread/CliThread.c:179 | the recall test fires exactly when the two collected bytes are not `o`, `a` in either case |
| ConsoleProperties.RecallTestExamples | A10_VoodooMagic/WINC1500_HTTP_DOWNLOADER_EXAMPLE1/src/CliThread/CliThread.c:179 | `[A` and `[B` recall; `OA` and `oa` do not |
| ConsoleProperties.UpArrowRecalls | A10_VoodooMagic/WINC1500_HTTP_DOWNLOADER_EXAMPLE1/src/CliThread/CliThread.c:167-194 | ESC [ A outside a sequence puts exactly the last command's string on the line |
| ConsoleProperties.SubmitKeepsLine | A10_VoodooMagic/WINC1500_HTTP_DOWNLOADER_EXAMPLE1/src/CliThread/CliThread.c:126-130 | submitting a NUL-free line of at most `MAX_INPUT_LENGTH_CLI - 1` bytes keeps exactly that line as the last command |
| ConsoleProperties.SubmitThenRecall | A10_VoodooMagic/WINC1500_HTTP_DOWNLOADER_EXAMPLE1/src/CliThread/CliThread.c:121-194 | from a NUL-free line of at most `MAX_INPUT_LENGTH_CLI - 1` bytes, CR followed by ESC [ A puts the same line back |
| ConsoleProperties.SubmittedLineIsRecalled | A10_VoodooMagic/WINC1500_HTTP_DOWNLOADER_EXAMPLE1/src/CliThread/CliThread.c:121-194 | typing a line, submitting it and pressing the up arrow brings back exactly that line, with nothing of earlier content |
| ConsoleProperties.NoDispatchWithoutTerminator | A10_VoodooMagic/WINC1500_HTTP_DOWNLOADER_EXAMPLE1/src/CliThread/CliThread.c:121-236 | without CR or LF, no byte stream calls the interpreter or changes the last command |
| ConsoleProperties.FullLineIsUnterminated | A10_VoodooMagic/WINC1500_HTTP_DOWNLOADER_EXAMPLE1/src/CliThread/CliThread.c:226-230 | 50 typed non-NUL bytes bring the cursor to `MAX_INPUT_LENGTH_CLI` and leave no NUL in the input buffer |
| ConsoleProperties.ClearScreenIsWritten | A10_VoodooMagic/WINC1500_HTTP_DOWNLOADER_EXAMPLE1/src/CliThread/CliThread.c:281-287 | dispatching the clear-screen command calls the interpreter once and writes exactly ESC "[2J" |

## Left out

- Serial input and output (`SerialConsoleReadCharacter`, `SerialConsoleWriteString`) are not modelled as I/O. Bytes are inputs of `Next` and `Step`, and writes are entries of `log`. A read that finds no byte only calls `vTaskDelay`, which changes no state, so it is left out.
- The `for (;;)` loop never ends. The model applies steps to a finite stream (`Run`, `Feed`).
- The FreeRTOS+CLI library is not part of this model: command registration (lines 91-95), `FreeRTOS_CLIProcessCommand` and `FreeRTOS_CLIGetParameter`. The interpreter's answers are an input to the model (see `Chunk`).
- The command handlers `CLI_GetImuData`, `CLI_ResetDevice`, `CLI_NeotrellisSetLed` and `CLI_OLEDdrawCircle` are not modelled. They drive sensors, displays and a reset through drivers that are not part of this model, and use floating point and `atoi`.
- Recall first prints the clear-line prompt into the input buffer with `sprintf`, writes it, and then clears the buffer. The model writes the prompt to `log` directly, because the buffer is cleared before anything reads it again.
- `ToLower` is `tolower` in the C locale; other locales are not modelled. No byte of 0x80 or above lowers to `o` or `a`, so `RecallRequested` gives the result of line 179 for every byte, whatever the signedness of `char`.
- ConsoleModel.ClearTerminalScreen: `snprintf` with a format string that holds no conversion is modelled. Its result when `CLI_MSG_LEN` is 0 is not, because `CLI_MSG_LEN - 1` would then wrap around.
- The buffer sizes are assumed (50, 100, 4 and 2), since CliThread.h is not part of this model. The escape invariant `EscapeValid`, and with it the unreachability of the full-collector reset, depend on `CLI_PC_MIN_ESCAPE_CODE_SIZE <= CLI_PC_ESCAPE_CODE_SIZE <= 4`. The capacity results (`PlainByteStoredOrDropped`, `FullLineIsUnterminated`, the recall bound, `Capped`) are stated for these values.
- The interpreter is assumed to leave the input buffer alone. The LED and circle handlers do write NULs into the command string through the parameter pointers they get back (lines 321-324 and 357-360). The model does not capture such writes, so `calls` and `DispatchAppends` assume every call receives the same buffer. The last command is copied before dispatch (line 129) and the buffer is cleared after it (line 159), so neither depends on this.
