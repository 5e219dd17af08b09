/** The console task's static buffers and the per-byte body of its loop, as
    a class whose methods update the buffers in place. Each method is proved
    to leave the state that the matching function of ConsoleModel gives. */
module CliConsole {
  import opened CStrings
  import opened ConsoleModel

  class Console {
    const input: array<byte>          // pcInputString
    var index: nat                    // cInputIndex
    const lastCommand: array<byte>    // pcLastCommand
    var escaping: bool                // isEscapeCode
    const escapeCodes: array<byte>    // pcEscapeCodes
    var escapePos: int                // pcEscapeCodePos
    const output: array<byte>         // pcOutputString
    var log: seq<seq<byte>>           // every string written to the serial console, in order
    var calls: seq<seq<byte>>         // the input buffer at each call of the interpreter

    /** The four buffers are separate objects. */
    ghost predicate Distinct()
      reads this
    {
      && input != lastCommand && input != escapeCodes && input != output
      && lastCommand != escapeCodes && lastCommand != output && escapeCodes != output
    }

    /** The abstract value of the console. */
    ghost function State(): ConsoleState
      reads this, input, lastCommand, escapeCodes, output
    {
      ConsoleState(input[..], index, lastCommand[..], escaping, escapeCodes[..], escapePos,
                   output[..], log, calls)
    }

    ghost predicate Valid()
      reads this, input, lastCommand, escapeCodes, output
    {
      Distinct() && State().Valid()
    }

    /** The task's start: zeroed static buffers, and the welcome message sent. */
    constructor ()
      ensures Valid() && State() == Initial()
      ensures fresh(input) && fresh(lastCommand) && fresh(escapeCodes) && fresh(output)
    {
      input := new byte[MaxInputLength](_ => 0);
      lastCommand := new byte[MaxInputLength](_ => 0);
      escapeCodes := new byte[EscapeCodeSlots](_ => 0);
      output := new byte[MaxOutputLength](_ => 0);
      index, escaping, escapePos := 0, false, 0;
      log, calls := [WelcomeMessage], [];
    }

    /** Handle one byte received from the serial console; response is what the
        interpreter answers, call by call, if the byte ends a line. */
    method Step(ch: byte, response: seq<Chunk>)
      requires Valid() && (IsTerminator(ch) ==> HasFinal(response))
      modifies this, input, lastCommand, escapeCodes, output
      ensures Valid() && State() == Next(old(State()), ch, response)
    {
      if ch == LF || ch == CR {
        SubmitLine(response);
      } else if escaping {
        CollectEscapeByte(ch);
      } else if ch == CR {
        // carriage returns are ignored here; never reached, CR ends a line above
      } else if ch == Backspace || ch == Delete {
        log := log + [EraseSequence];
        if index > 0 {
          index := index - 1;
          input[index] := 0;
        }
      } else if ch == Esc {
        escaping := true;
        escapePos := 0;
      } else {
        if index < MaxInputLength {
          input[index] := ch;
          index := index + 1;
        }
        log := log + [CStr([ch, 0])];
      }
    }

    /** Handle a stream of received bytes, one after the other. */
    method Feed(events: seq<Event>)
      requires Valid() && AllWellFormed(events)
      modifies this, input, lastCommand, escapeCodes, output
      ensures Valid() && State() == Run(old(State()), events)
    {
      for i := 0 to |events|
        invariant Valid()
        invariant Run(old(State()), events) == Run(State(), events[i..])
      {
        assert WellFormed(events[i]);
        Step(events[i].ch, events[i].response);
      }
    }

    /** A complete line: keep it as the last command, run the interpreter
        until it is done, clear the line. */
    method SubmitLine(response: seq<Chunk>)
      requires Valid() && HasFinal(response)
      modifies this, input, lastCommand, output
      ensures Valid() && State() == Submit(old(State()), response)
    {
      KeepLine();
      ghost var before := State();
      RunInterpreter(response);
      ghost var after := Dispatch(before, response);
      index := 0;
      Memset(input);
      assert State() == after.(index := 0, input := Zeros(MaxInputLength));
    }

    /** The start of a submission: write the line break, end any escape
        sequence and keep the line, NUL-terminated, as the last command. */
    method KeepLine()
      requires Valid()
      modifies this`log, this`escaping, this`escapePos, lastCommand
      ensures Distinct()
      ensures State() == old(State()).(log := old(log) + [LineBreak], escaping := false, escapePos := 0,
                                        lastCommand := StrNCpy(old(lastCommand[..]), input[..], MaxInputLength - 1)[MaxInputLength - 1 := 0])
    {
      log := log + [LineBreak];
      escaping, escapePos := false, 0;
      StrNCopy(lastCommand, input, MaxInputLength - 1);
      lastCommand[MaxInputLength - 1] := 0;  // ensure NUL termination
    }

    /** The do-while loop around the interpreter: each call's output is
        NUL-terminated and written before the next call. */
    method RunInterpreter(response: seq<Chunk>)
      requires Distinct() && output.Length == MaxOutputLength && HasFinal(response)
      modifies this, output
      ensures State() == Dispatch(old(State()), response)
    {
      var i := 0;
      var more := true;
      while more
        invariant 0 <= i <= |response|
        invariant more ==> HasFinal(response[i..])
        invariant more ==> Dispatch(old(State()), response) == Dispatch(State(), response[i..])
        invariant !more ==> State() == Dispatch(old(State()), response)
        decreases |response| - i
      {
        CallInterpreter(response[i]);
        more := response[i].more;
        i := i + 1;
      }
    }

    /** One call of the interpreter, and the write of what it produced. */
    method CallInterpreter(chunk: Chunk)
      requires Distinct() && output.Length == MaxOutputLength
      modifies this`calls, this`log, output
      ensures State() == Interpret(old(State()), chunk)
    {
      calls := calls + [input[..]];
      // the interpreter writes its text into the output buffer
      forall k | 0 <= k < output.Length && k < |chunk.text| {
        output[k] := chunk.text[k];
      }
      output[MaxOutputLength - 1] := 0;  // ensure NUL termination
      assert output[..] == Written(old(output[..]), chunk.text)[MaxOutputLength - 1 := 0];
      log := log + [CStr(output[..])];
    }

    /** A byte received while an escape sequence is being collected. */
    method CollectEscapeByte(ch: byte)
      requires Distinct() && CanCollect(State()) && escaping
      modifies this, input, escapeCodes
      ensures State() == CollectEscape(old(State()), ch)
    {
      if escapePos < EscapeCodeSize {
        escapeCodes[escapePos] := ch;
        escapePos := escapePos + 1;
      } else {
        escaping, escapePos := false, 0;
      }
      if escapePos >= MinEscapeCodeSize {
        // the up-arrow test: show the last command
        if RecallRequested(escapeCodes[..]) {
          RecallLastCommand();
        }
        escaping, escapePos := false, 0;
      }
    }

    /** Replace the line with the last command and echo it. */
    method RecallLastCommand()
      requires Distinct() && input.Length == MaxInputLength && State().HistoryValid()
      modifies this, input
      ensures State() == Recall(old(State()))
    {
      log := log + [ClearLinePrompt];  // delete the current line and print the prompt
      index := 0;
      RestoreLine();
      index := if |CStr(input[..])| < MaxInputLength - 1 then |CStr(lastCommand[..])|
               else MaxInputLength - 1;
      log := log + [CStr(input[..])];
    }

    /** Clear the line buffer and copy the last command into it, leaving out
        its final byte: the buffer then holds the last command exactly. */
    method RestoreLine()
      requires Distinct() && input.Length == MaxInputLength && State().HistoryValid()
      modifies input
      ensures input[..] == lastCommand[..]
    {
      Memset(input);
      StrNCopy(input, lastCommand, MaxInputLength - 1);
      CopyOfPadded(lastCommand[..]);
    }
  }
}
