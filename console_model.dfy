/** The state of the command console task and what one received byte does to
    it, as values. The class in module CliConsole keeps this state in arrays
    and is proved to follow these functions byte by byte. */
module ConsoleModel {
  import opened CStrings

  // Sizes of the task's static buffers. CliThread.h, which defines them, is
  // not part of this model: these values are assumed.
  const MaxInputLength: nat := 50      // MAX_INPUT_LENGTH_CLI: pcInputString, pcLastCommand
  const MaxOutputLength: nat := 100    // MAX_OUTPUT_LENGTH_CLI: pcOutputString
  const EscapeCodeSlots: nat := 4      // pcEscapeCodes[4]
  const EscapeCodeSize: nat := 4       // CLI_PC_ESCAPE_CODE_SIZE
  const MinEscapeCodeSize: nat := 2    // CLI_PC_MIN_ESCAPE_CODE_SIZE

  const LF: byte := 10
  const CR: byte := 13
  const Backspace: byte := 8           // ASCII_BACKSPACE
  const Delete: byte := 127            // ASCII_DELETE
  const Esc: byte := 27                // ASCII_ESC

  /** "\r\n", written when a line is complete. */
  const LineBreak: seq<byte> := [13, 10]
  /** Back one column, overwrite with a space, back again. */
  const EraseSequence: seq<byte> := [8, 32, 8]
  /** ESC "[2K" (erase the whole line), "\r" and the prompt ">". */
  const ClearLinePrompt: seq<byte> := [27, 91, 50, 75, 13, 62]
  /** ESC "[2J" (erase the whole screen). */
  const ClearScreenCode: seq<byte> := [27, 91, 50, 74]
  /** "oa", the string the collected escape bytes are compared with. */
  const RecallCode: seq<byte> := [111, 97]
  /** Written once when the task starts. */
  const WelcomeMessage: seq<byte> :=
    Bytes("FreeRTOS CLI.\r\nType Help to view a list of registered commands.\r\n")

  /** What one call of the command interpreter produced: the bytes it wrote
      from the start of the output buffer, and whether it asks to be called
      again for more output. */
  datatype Chunk = Chunk(text: seq<byte>, more: bool)

  /** The task's state: the line being typed and its cursor, the last submitted
      line, the escape-sequence collector, the output buffer, every string
      written to the serial console, and the input buffer as the interpreter
      received it on each call. */
  datatype ConsoleState = ConsoleState(
    input: seq<byte>,          // pcInputString
    index: nat,                // cInputIndex
    lastCommand: seq<byte>,    // pcLastCommand
    escaping: bool,            // isEscapeCode
    escapeCodes: seq<byte>,    // pcEscapeCodes
    escapePos: int,            // pcEscapeCodePos
    output: seq<byte>,         // pcOutputString
    log: seq<seq<byte>>,       // SerialConsoleWriteString calls, in order
    calls: seq<seq<byte>>)     // FreeRTOS_CLIProcessCommand calls, in order
  {
    /** The line buffer: the typed bytes sit below the cursor, NULs above it. */
    ghost predicate LineValid()
    {
      && |input| == MaxInputLength
      && index <= MaxInputLength
      && forall k :: index <= k < MaxInputLength ==> input[k] == 0
    }

    /** The last command is one NUL-terminated C string, padded with NULs. */
    ghost predicate HistoryValid()
    {
      && |lastCommand| == MaxInputLength
      && lastCommand[MaxInputLength - 1] == 0
      && Padded(lastCommand)
    }

    /** The collector is idle at position 0 or part-way through a sequence
        shorter than the minimum; slots from the minimum on are never written. */
    ghost predicate EscapeValid()
    {
      && |escapeCodes| == EscapeCodeSlots
      && 0 <= escapePos < MinEscapeCodeSize
      && (!escaping ==> escapePos == 0)
      && forall k :: MinEscapeCodeSize <= k < EscapeCodeSlots ==> escapeCodes[k] == 0
    }

    ghost predicate Valid()
    {
      LineValid() && HistoryValid() && EscapeValid() && |output| == MaxOutputLength
    }

    /** The typed line: the bytes below the cursor. */
    function Line(): seq<byte>
      requires index <= |input|
    {
      input[..index]
    }
  }

  /** The state when the task enters its loop: zeroed static buffers and the
      welcome message on the console. */
  function Initial(): (s: ConsoleState)
    ensures s.Valid() && s.Line() == [] && !s.escaping
  {
    ConsoleState(Zeros(MaxInputLength), 0, Zeros(MaxInputLength), false,
                 Zeros(EscapeCodeSlots), 0, Zeros(MaxOutputLength), [WelcomeMessage], [])
  }

  predicate IsTerminator(ch: byte) { ch == LF || ch == CR }

  predicate IsErase(ch: byte) { ch == Backspace || ch == Delete }

  /** A byte with no meaning of its own to the console: outside an escape
      sequence it is typed into the line. */
  predicate IsPlain(ch: byte) { !IsTerminator(ch) && !IsErase(ch) && ch != Esc }

  /** The up-arrow test as written: strcasecmp(pcEscapeCodes, "oa") is
      non-zero, that is, the collected bytes are NOT "oa" in either case. */
  predicate RecallRequested(codes: seq<byte>)
    ensures CStr(codes) == RecallCode ==> !RecallRequested(codes)
    ensures CStr(codes) == [91, 65] ==> RecallRequested(codes)
  {
    !EqualsIgnoringCase(CStr(codes), RecallCode)
  }

  /** The interpreter's answers end: some call reports no more output. */
  predicate HasFinal(response: seq<Chunk>)
    decreases |response|
  {
    |response| > 0 && (response[0].more ==> HasFinal(response[1..]))
  }

  /** How many times the dispatch loop calls the interpreter: up to and
      including the first call that reports no more output. */
  function CallCount(response: seq<Chunk>): (n: nat)
    requires HasFinal(response)
    ensures 0 < n <= |response| && !response[n - 1].more
    ensures forall j :: 0 <= j < n - 1 ==> response[j].more
    decreases |response|
  {
    if response[0].more then 1 + CallCount(response[1..]) else 1
  }

  /** The output buffer after the interpreter wrote text from its start (at
      most the buffer's size, which it is told). */
  function Written(buffer: seq<byte>, text: seq<byte>): (r: seq<byte>)
    ensures |r| == |buffer|
    ensures forall k :: 0 <= k < |r| ==> r[k] == if k < |text| then text[k] else buffer[k]
  {
    if |text| >= |buffer| then text[..|buffer|] else text + buffer[|text|..]
  }

  /** The interpreter's text as the console shows it when the text carries its
      own NUL: cut to the MaxOutputLength - 1 bytes before the forced NUL. */
  function Capped(t: seq<byte>): (r: seq<byte>)
    ensures |r| <= |t| && |r| < MaxOutputLength && r == t[..|r|]
    ensures |t| < MaxOutputLength ==> r == t
    ensures |t| >= MaxOutputLength ==> |r| == MaxOutputLength - 1
  {
    if |t| < MaxOutputLength then t else t[..MaxOutputLength - 1]
  }

  /** One call of the interpreter on the input buffer, followed by forcing the
      last byte of the output buffer to NUL and writing the buffer as a string. */
  function Interpret(s: ConsoleState, chunk: Chunk): (r: ConsoleState)
    requires |s.output| == MaxOutputLength
    ensures |r.output| == MaxOutputLength
    ensures r == s.(output := r.output, log := r.log, calls := r.calls)
  {
    var filled := Written(s.output, chunk.text)[MaxOutputLength - 1 := 0];
    s.(calls := s.calls + [s.input], output := filled, log := s.log + [CStr(filled)])
  }

  /** The dispatch loop: call the interpreter, and go round again while it asks
      for it. */
  function Dispatch(s: ConsoleState, response: seq<Chunk>): (r: ConsoleState)
    requires |s.output| == MaxOutputLength && HasFinal(response)
    ensures |r.output| == MaxOutputLength
    ensures r == s.(output := r.output, log := r.log, calls := r.calls)
    decreases |response|
  {
    var next := Interpret(s, response[0]);
    if response[0].more then Dispatch(next, response[1..]) else next
  }

  /** CR or LF: write a line break, end any escape sequence, keep the line
      (at most MaxInputLength - 1 bytes, NUL-terminated) as the last command,
      dispatch it, then clear the line. */
  function Submit(s: ConsoleState, response: seq<Chunk>): (r: ConsoleState)
    requires s.Valid() && HasFinal(response)
    ensures r.Valid()
  {
    var snapshot := StrNCpy(s.lastCommand, s.input, MaxInputLength - 1)[MaxInputLength - 1 := 0];
    PaddedCopy(snapshot, s.input, MaxInputLength - 1);
    var before := s.(log := s.log + [LineBreak], escaping := false, escapePos := 0,
                     lastCommand := snapshot);
    var after := Dispatch(before, response);
    after.(index := 0, input := Zeros(MaxInputLength))
  }

  /** History recall: clear the visible line and print the prompt, clear the
      line buffer, copy the last command into it (at most MaxInputLength - 1
      bytes), put the cursor after it and echo it. */
  function Recall(s: ConsoleState): (r: ConsoleState)
    requires s.HistoryValid() && |s.input| == MaxInputLength
    ensures r.LineValid() && r.HistoryValid()
    ensures r.input == s.lastCommand && r.index == |CStr(s.lastCommand)| <= MaxInputLength - 1
    ensures r.log == s.log + [ClearLinePrompt, CStr(s.lastCommand)]
    ensures r == s.(input := r.input, index := r.index, log := r.log)
  {
    var restored := StrNCpy(Zeros(MaxInputLength), s.lastCommand, MaxInputLength - 1);
    CopyOfPadded(s.lastCommand);
    var length := if |CStr(restored)| < MaxInputLength - 1 then |CStr(s.lastCommand)|
                  else MaxInputLength - 1;
    s.(log := s.log + [ClearLinePrompt, CStr(restored)], input := restored, index := length)
  }

  /** The collector's slots exist and its position is not negative; it need
      not be below the minimum, so the branch for a full collector is covered. */
  ghost predicate CanCollect(s: ConsoleState)
  {
    && s.LineValid() && s.HistoryValid() && |s.output| == MaxOutputLength
    && |s.escapeCodes| == EscapeCodeSlots && 0 <= s.escapePos
  }

  /** A byte received while an escape sequence is being collected: stored
      while the collector has room, which ends the sequence once it reaches the
      minimum length; a full collector is reset and the byte dropped. */
  function CollectEscape(s: ConsoleState, ch: byte): (r: ConsoleState)
    requires CanCollect(s) && s.escaping
    ensures CanCollect(r)
    ensures s.Valid() ==> r.Valid()
    ensures s.escapePos >= EscapeCodeSize ==> r == s.(escaping := false, escapePos := 0)
    ensures s.escapePos < EscapeCodeSize ==> r.escapeCodes == s.escapeCodes[s.escapePos := ch]
    ensures s.escapePos < EscapeCodeSize && s.escapePos + 1 < MinEscapeCodeSize ==>
              r == s.(escapeCodes := r.escapeCodes, escapePos := s.escapePos + 1)
    ensures s.escapePos + 1 >= MinEscapeCodeSize ==> !r.escaping && r.escapePos == 0
  {
    if s.escapePos < EscapeCodeSize then
      var stored := s.(escapeCodes := s.escapeCodes[s.escapePos := ch], escapePos := s.escapePos + 1);
      if stored.escapePos >= MinEscapeCodeSize then
        var recalled := if RecallRequested(stored.escapeCodes) then Recall(stored) else stored;
        recalled.(escaping := false, escapePos := 0)
      else stored
    else
      // the collector is full: drop the sequence (its position is then 0, below the minimum)
      s.(escaping := false, escapePos := 0)
  }

  /** Backspace or delete: write the erase sequence; drop the last typed byte
      if there is one. */
  function Erase(s: ConsoleState): (r: ConsoleState)
    requires s.Valid()
    ensures r.Valid()
  {
    var echoed := s.(log := s.log + [EraseSequence]);
    if s.index > 0 then echoed.(index := s.index - 1, input := s.input[s.index - 1 := 0])
    else echoed
  }

  /** Any other byte: store it at the cursor while there is room, and echo it
      (as the C string {ch, 0}) whether it was stored or not. */
  function Accept(s: ConsoleState, ch: byte): (r: ConsoleState)
    requires s.Valid()
    ensures r.Valid()
  {
    var stored := if s.index < MaxInputLength then s.(input := s.input[s.index := ch], index := s.index + 1)
                  else s;
    stored.(log := stored.log + [CStr([ch, 0])])
  }

  /** One received byte, in the order the task tests it. */
  function Next(s: ConsoleState, ch: byte, response: seq<Chunk>): (r: ConsoleState)
    requires s.Valid() && (IsTerminator(ch) ==> HasFinal(response))
    ensures r.Valid()
  {
    if ch == LF || ch == CR then Submit(s, response)
    else if s.escaping then CollectEscape(s, ch)
    else if ch == CR then s  // never taken: CR is a terminator
    else if ch == Backspace || ch == Delete then Erase(s)
    else if ch == Esc then s.(escaping := true, escapePos := 0)
    else Accept(s, ch)
  }

  /** A received byte, with what the interpreter answers if the byte ends a line. */
  datatype Event = Event(ch: byte, response: seq<Chunk>)

  predicate WellFormed(e: Event) { IsTerminator(e.ch) ==> HasFinal(e.response) }

  predicate AllWellFormed(events: seq<Event>)
  {
    forall i :: 0 <= i < |events| ==> WellFormed(events[i])
  }

  /** The task's loop over a finite stream of received bytes. */
  function Run(s: ConsoleState, events: seq<Event>): (r: ConsoleState)
    requires s.Valid() && AllWellFormed(events)
    ensures r.Valid()
    decreases |events|
  {
    if events == [] then s
    else Run(Next(s, events[0].ch, events[0].response), events[1..])
  }

  /** xCliClearTerminalScreen, given the size of its scratch buffer bufCli
      (CLI_MSG_LEN) and the size of the output buffer it is handed: it prints
      ESC "[2J" into bufCli, copies that into the output buffer, and asks for
      no further call. */
  function ClearTerminalScreen(msgLength: nat, writeLength: nat): (c: Chunk)
    requires msgLength >= 1
    ensures !c.more && |c.text| <= writeLength
    ensures writeLength > 0 ==> 0 in c.text && CStr(c.text) <= ClearScreenCode
    ensures msgLength >= 6 && writeLength >= 5 ==> CStr(c.text) == ClearScreenCode
  {
    var scratch := SnPrintf(msgLength - 1, ClearScreenCode);
    var shown := CStr(scratch);
    assert shown == ClearScreenCode[..|shown|];
    Chunk(SnPrintf(writeLength, shown), false)
  }
}
